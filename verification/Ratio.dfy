/** Splitting a lootbox deposit by the on-chain ratios (contracts/ethereum/lootbox-utils.ts).
    BigNumber is an unbounded integer whose division truncates and throws on zero. */
module Ratio {
  import opened Options

  const FULL := 1_000_000_000_000

  function Pow10(n: nat): (p: nat)
    ensures p > 0
  {
    if n == 0 then 1 else 10 * Pow10(n - 1)
  }

  /** BigNumber.div, for a divisor other than zero. */
  function Div(x: int, y: int): int
    requires y != 0
  {
    if x >= 0 then x / y else -(-x / y)
  }

  /** It drops the remainder towards zero. */
  lemma DivTowardsZero(x: int, y: int)
    requires y > 0
    ensures x >= 0 ==> y * Div(x, y) <= x < y * (Div(x, y) + 1)
    ensures x <= 0 ==> y * (Div(x, y) - 1) < x <= y * Div(x, y)
  {
    if x >= 0 {
      Euclid(x, y);
      Plus(y, x / y, 1);
    }
    if x <= 0 {
      Euclid(-x, y);
      Plus(y, -(-x / y), -1);
      Negated(y, -x / y);
    }
  }

  lemma Negated(e: int, x: int)
    ensures e * -x == -(e * x)
  {}

  /** None when a division by zero throws. */
  function AllocateRatio(num1: nat, num2: nat, perc1: int): Option<(int, int)> {
    if num1 == 0 || num2 == 0 then Some((0, 0)) else
      var oneE40, perc2 := Pow10(40), FULL - perc1;
      if perc1 == 0 || perc2 == 0 then None else
        var comp1, comp2 := Div(num1 * oneE40, perc1), Div(num2 * oneE40, perc2);
        var x := if comp1 > comp2 then comp2 else comp1;
        Some((Div(perc1 * x, oneE40), Div(perc2 * x, oneE40)))
  }

  /** What the shares a and b of n1 and n2 must satisfy: within the maxima, one of them used up but for
      at most one unit, and in the ratio p1 : p2 up to rounding. */
  ghost predicate Fair(a: int, b: int, n1: nat, n2: nat, p1: int, p2: int) {
    && 0 <= a <= n1 && 0 <= b <= n2
    && (a >= n1 - 1 || b >= n2 - 1)
    && -p2 < a * p2 - b * p1 < p1
  }

  lemma Euclid(x: nat, y: nat)
    requires y > 0
    ensures var q := x / y; y * q <= x < y * q + y && q >= 0
  {}

  lemma Monotone(e: int, x: int, y: int)
    requires e >= 0 && x <= y
    ensures e * x <= e * y
  {}

  lemma Cancel(x: int, y: int, e: int)
    requires e > 0 && e * x < e * y
    ensures x < y
  {
    if y <= x {
      Monotone(e, y, x);
    }
  }

  lemma Plus(e: int, x: int, k: int)
    ensures e * (x + k) == e * x + e * k
  {}

  lemma Minus(x: int, y: int, p: int)
    ensures (x - y) * p == x * p - y * p
  {}

  lemma Associate(e: int, x: int, y: int)
    ensures e * (x * y) == (e * x) * y
  {}

  /** A share is at most its maximum, and short of it by at most one when it sets the pace. */
  lemma ShareWithin(n: nat, p: nat, e: nat, x: nat)
    requires 0 < p < e && x <= (n * e) / p
    ensures 0 <= (p * x) / e <= n
    ensures x == (n * e) / p ==> (p * x) / e >= n - 1
  {
    Euclid(n * e, p);
    Euclid(p * x, e);
    Monotone(p, x, (n * e) / p);
    ShareBounds(n * e, p * x, p * ((n * e) / p), e * ((p * x) / e), n, p, e, (p * x) / e);
  }

  lemma ShareBounds(ne: int, px: int, pc: int, ea: int, n: nat, p: nat, e: nat, a: int)
    requires ne == n * e && ea == e * a && 0 < p < e
    requires px <= pc <= ne < pc + p && ea <= px < ea + e
    ensures a <= n
    ensures px == pc ==> a >= n - 1
  {
    Plus(e, n, 1);
    Plus(e, a, 2);
    Cancel(a, n + 1, e);
    if px == pc {
      Cancel(n, a + 2, e);
    }
  }

  /** Two floors of p1 * x / e and p2 * x / e are in ratio but for the remainders. */
  lemma InRatio(p1: int, p2: int, e: int, x: nat)
    requires e > 0 && p1 > 0 && p2 > 0
    ensures var a, b := (p1 * x) / e, (p2 * x) / e; -p2 < a * p2 - b * p1 < p1
  {
    Euclid(p1 * x, e);
    Euclid(p2 * x, e);
    RatioOfFloors((p1 * x) / e, (p2 * x) / e, p1 * x - e * ((p1 * x) / e), p2 * x - e * ((p2 * x) / e), p1, p2, e, x);
  }

  lemma RatioOfFloors(a: int, b: int, r1: int, r2: int, p1: int, p2: int, e: int, x: int)
    requires p1 * x == e * a + r1 && p2 * x == e * b + r2
    requires 0 <= r1 < e && 0 <= r2 < e && p1 > 0 && p2 > 0
    ensures -p2 < a * p2 - b * p1 < p1
  {
    Remainders(a, b, r1, r2, p1, p2, e, x);
    Bound(r1, e, p2);
    Bound(r2, e, p1);
    Minus(0, p2, e);
    Cancel(-p2, a * p2 - b * p1, e);
    Cancel(a * p2 - b * p1, p1, e);
  }

  lemma Remainders(a: int, b: int, r1: int, r2: int, p1: int, p2: int, e: int, x: int)
    requires p1 * x == e * a + r1 && p2 * x == e * b + r2
    ensures e * (a * p2 - b * p1) == r2 * p1 - r1 * p2
  {
    Associate(e, a, p2);
    Associate(e, b, p1);
    Plus(e, a * p2, -(b * p1));
    Minus(p1 * x, r1, p2);
    Minus(p2 * x, r2, p1);
    assert p1 * x * p2 == p2 * x * p1;
  }

  lemma Bound(r: int, s: int, p: int)
    requires 0 <= r < s && p > 0
    ensures 0 <= r * p <= s * p - p
  {
    Monotone(p, r, s - 1);
    Minus(s, 1, p);
  }

  /** For every percentage strictly between none and all. */
  lemma AllocationIsFair(num1: nat, num2: nat, perc1: int)
    requires 0 < perc1 < FULL && num1 > 0 && num2 > 0
    ensures var r := AllocateRatio(num1, num2, perc1);
            r.Some? && Fair(r.value.0, r.value.1, num1, num2, perc1, FULL - perc1)
  {
    var e, perc2 := Pow10(40), FULL - perc1;
    Pow12();
    PowersGrow(12, 40);
    hide Pow10;
    FairShares(num1, num2, perc1, perc2, e);
  }

  /** The side whose amount in units of its part is the lesser gets the whole of its maximum if its part
      divides it 10^40-fold, and one less otherwise. */
  lemma PacerReachesMaximum(num1: nat, num2: nat, perc1: int)
    requires 0 < perc1 < FULL && num1 > 0 && num2 > 0
    ensures AllocateRatio(num1, num2, perc1).Some?
    ensures var r, e, perc2 := AllocateRatio(num1, num2, perc1).value, Pow10(40), FULL - perc1;
            if (num1 * e) / perc1 <= (num2 * e) / perc2
            then r.0 == num1 - if (num1 * e) % perc1 == 0 then 0 else 1
            else r.1 == num2 - if (num2 * e) % perc2 == 0 then 0 else 1
  {
    var e, perc2 := Pow10(40), FULL - perc1;
    Pow12();
    PowersGrow(12, 40);
    hide Pow10;
    var comp1, comp2 := (num1 * e) / perc1, (num2 * e) / perc2;
    Nonnegative(num1, e);
    Nonnegative(num2, e);
    Euclid(num1 * e, perc1);
    Euclid(num2 * e, perc2);
    Nonnegative(perc1, comp1);
    Nonnegative(perc2, comp2);
    Nonnegative(perc1, comp2);
    Nonnegative(perc2, comp1);
    PacerShare(num1, perc1, e);
    PacerShare(num2, perc2, e);
  }

  lemma PacerShare(n: nat, p: nat, e: nat)
    requires n > 0 && 0 < p < e
    ensures (p * ((n * e) / p)) / e == n - if (n * e) % p == 0 then 0 else 1
  {
    var c := (n * e) / p;
    assert n * e == p * c + (n * e) % p;
    Nonnegative(p, c);
    Euclid(p * c, e);
    PacerBounds(n * e, p * c, e * ((p * c) / e), n, p, e, (p * c) / e);
  }

  lemma PacerBounds(ne: int, pc: int, ea: int, n: nat, p: nat, e: nat, a: int)
    requires ne == n * e && ea == e * a && 0 < p < e
    requires pc <= ne < pc + p && ea <= pc < ea + e
    ensures a == n - if pc == ne then 0 else 1
  {
    Plus(e, a, 1);
    Plus(e, n, 1);
    Plus(e, n, -1);
    Cancel(a, n + 1, e);
    if pc == ne {
      Cancel(n, a + 1, e);
    } else {
      Cancel(a, n, e);
      Cancel(n - 1, a + 1, e);
    }
  }

  lemma Pow12()
    ensures Pow10(12) == FULL
  {
    assert Pow10(6) == 1_000_000;
    assert Pow10(9) == 1_000_000_000;
  }

  lemma FairShares(num1: nat, num2: nat, perc1: nat, perc2: nat, e: nat)
    requires 0 < perc1 < e && 0 < perc2 < e
    ensures var comp1, comp2 := Div(num1 * e, perc1), Div(num2 * e, perc2);
            var x := if comp1 > comp2 then comp2 else comp1;
            Fair(Div(perc1 * x, e), Div(perc2 * x, e), num1, num2, perc1, perc2)
  {
    var comp1, comp2 := Div(num1 * e, perc1), Div(num2 * e, perc2);
    Nonnegative(num1, e);
    Nonnegative(num2, e);
    Euclid(num1 * e, perc1);
    Euclid(num2 * e, perc2);
    var x := if comp1 > comp2 then comp2 else comp1;
    ShareWithin(num1, perc1, e, x);
    ShareWithin(num2, perc2, e, x);
    InRatio(perc1, perc2, e, x);
    Nonnegative(perc1, x);
    Nonnegative(perc2, x);
  }

  lemma Nonnegative(x: nat, y: nat)
    ensures x * y >= 0
  {}

  lemma {:induction false} PowersGrow(m: nat, n: nat)
    ensures m < n ==> Pow10(m) < Pow10(n)
  {
    if m < n {
      PowersGrow(m, n - 1);
    }
  }

  /** No share is had from an empty side, and a one-sided ratio cannot be divided by. */
  lemma AllocationFails(num1: nat, num2: nat, perc1: int)
    ensures num1 == 0 || num2 == 0 ==> AllocateRatio(num1, num2, perc1) == Some((0, 0))
    ensures AllocateRatio(num1, num2, perc1).None? <==> num1 > 0 && num2 > 0 && (perc1 == 0 || perc1 == FULL)
  {}

  /** A ratio outside none and all: one share is never positive, the other within its maximum. */
  predicate Lopsided(a: int, b: int, n1: nat, n2: nat, perc1: int) {
    if perc1 > FULL then a <= 0 <= b <= n2 else b <= 0 <= a <= n1
  }

  lemma AllocationLopsided(num1: nat, num2: nat, perc1: int)
    requires (perc1 < 0 || perc1 > FULL) && num1 > 0 && num2 > 0
    ensures var r := AllocateRatio(num1, num2, perc1);
            r.Some? && Lopsided(r.value.0, r.value.1, num1, num2, perc1)
  {
    var e, perc2 := Pow10(40), FULL - perc1;
    hide Pow10;
    if perc1 > FULL {
      NegativeShare(num2, num1, perc2, perc1, e);
    } else {
      NegativeShare(num1, num2, perc1, perc2, e);
    }
  }

  /** The side whose part p is negative sets the pace: its own share is within n, the other's not positive. */
  lemma NegativeShare(n: nat, other: nat, p: int, q: int, e: nat)
    requires p < 0 < q && e > 0
    ensures var comp := Div(n * e, p);
            && comp <= 0 <= Div(other * e, q)
            && 0 <= Div(p * comp, e) <= n
            && Div(q * comp, e) <= 0
  {
    var c := (n * e) / -p;
    Nonnegative(n, e);
    Nonnegative(other, e);
    Euclid(n * e, -p);
    Euclid(other * e, q);
    assert Div(n * e, p) == -c;
    Monotone(q, -c, 0);
    NegateBoth(p, c);
    assert p * -c == -p * c;
    UpToWhole(-p * c, n, e);
    if q * -c < 0 {
      Euclid(-(q * -c), e);
    }
  }

  lemma NegateBoth(p: int, c: int)
    requires p < 0 <= c
    ensures p * -c == -p * c >= 0
  {}

  lemma UpToWhole(x: nat, n: nat, e: nat)
    requires e > 0 && x <= n * e
    ensures 0 <= x / e <= n
  {
    Euclid(x, e);
    Plus(e, n, 1);
    Cancel(x / e, n + 1, e);
  }

  lemma LopsidedScaled(a: int, b: int, n1: nat, n2: nat, s1: nat, s2: nat, perc1: int)
    requires s1 > 0 && s2 > 0 && n1 * s1 >= 0 && n2 * s2 >= 0
    requires Lopsided(a, b, n1 * s1, n2 * s2, perc1)
    ensures Lopsided(Div(a, s1), Div(b, s2), n1, n2, perc1)
  {
    if perc1 > FULL {
      UpToWhole(b, n2, s2);
      NotPositive(a, s1);
    } else {
      UpToWhole(a, n1, s1);
      NotPositive(b, s2);
    }
  }

  lemma NotPositive(a: int, s: nat)
    requires a <= 0 && s > 0
    ensures Div(a, s) <= 0
  {
    Euclid(-a, s);
  }

  // ---- with both amounts brought to common decimals

  /** What scaling up and then down again leaves of Fair: the ratio holds to within one unit of each. */
  ghost predicate FairScaled(a: int, b: int, n1: nat, n2: nat, s1: nat, s2: nat, p1: int, p2: int) {
    && 0 <= a <= n1 && 0 <= b <= n2
    && (a >= n1 - 1 || b >= n2 - 1)
    && -(p2 * s1) < a * s1 * p2 - b * s2 * p1 < p1 * s2
  }

  lemma ScaledShare(a: nat, n: nat, s: nat)
    requires s > 0 && a <= n * s
    ensures 0 <= a / s <= n
    ensures a >= n * s - 1 ==> a / s >= n - 1
  {
    var q := a / s;
    Euclid(a, s);
    Plus(s, n, 1);
    Plus(s, q, 2);
    Cancel(q, n + 1, s);
    if a >= n * s - 1 {
      Cancel(n, q + 2, s);
    }
  }

  lemma ScaledRatio(a: int, b: int, qa: int, qb: int, ra: int, rb: int, s1: nat, s2: nat, p1: int, p2: int)
    requires a == qa * s1 + ra && b == qb * s2 + rb && 0 <= ra < s1 && 0 <= rb < s2
    requires p1 > 0 && p2 > 0 && -p2 < a * p2 - b * p1 < p1
    ensures -(p2 * s1) < qa * s1 * p2 - qb * s2 * p1 < p1 * s2
  {
    Minus(a, ra, p2);
    Minus(b, rb, p1);
    Bound(ra, s1, p2);
    Bound(rb, s2, p1);
  }

  lemma ScaleDown(a: int, b: int, n1: nat, n2: nat, s1: nat, s2: nat, p1: int, p2: int)
    requires s1 > 0 && s2 > 0 && p1 > 0 && p2 > 0
    requires n1 * s1 >= 0 && n2 * s2 >= 0 && Fair(a, b, n1 * s1, n2 * s2, p1, p2)
    ensures FairScaled(a / s1, b / s2, n1, n2, s1, s2, p1, p2)
  {
    ScaledShare(a, n1, s1);
    ScaledShare(b, n2, s2);
    Euclid(a, s1);
    Euclid(b, s2);
    var qa, qb := a / s1, b / s2;
    ScaledRatio(a, b, qa, qb, a - qa * s1, b - qb * s2, s1, s2, p1, p2);
  }

  lemma ScalingKeepsFair(n1: nat, n2: nat, s1: nat, s2: nat, perc1: int)
    requires 0 < perc1 < FULL && s1 > 0 && s2 > 0 && n1 > 0 && n2 > 0
    ensures n1 * s1 > 0 && n2 * s2 > 0
    ensures var r := AllocateRatio(n1 * s1, n2 * s2, perc1);
            && r.Some?
            && FairScaled(Div(r.value.0, s1), Div(r.value.1, s2), n1, n2, s1, s2, perc1, FULL - perc1)
  {
    Positive(n1, s1);
    Positive(n2, s2);
    hide AllocateRatio, FairScaled;
    AllocationIsFair(n1 * s1, n2 * s2, perc1);
    var r := AllocateRatio(n1 * s1, n2 * s2, perc1).value;
    ScaleDown(r.0, r.1, n1, n2, s1, s2, perc1, FULL - perc1);
  }

  lemma Positive(x: nat, y: nat)
    requires x > 0 && y > 0
    ensures x * y > 0
  {}

  datatype Amounts = Amounts(fusdcForUsdc: int, usdc: int, fusdcForWeth: int, weth: int)

  /** Two currencies are compared in whole coins when their scaled units agree. */
  predicate SameUnit(decimals1: nat, scale1: nat, decimals2: nat, scale2: nat) {
    scale1 * Pow10(decimals1) == scale2 * Pow10(decimals2)
  }

  function Scale(own: nat, other: nat): nat {
    if other > own then Pow10(other - own) else 1
  }

  /** fUSDC having more decimals than USDC scales USDC by one power of ten too many. */
  function UsdcScale(usdc: nat, fusdc: nat): nat {
    if fusdc > usdc then Pow10(fusdc - usdc + 1) else 1
  }

  lemma {:induction false} PowAdds(m: nat, n: nat)
    ensures Pow10(m) * Pow10(n) == Pow10(m + n)
  {
    if m > 0 {
      PowAdds(m - 1, n);
      Associate(10, Pow10(m - 1), Pow10(n));
    }
  }

  lemma ScaleMeetsUnit(own: nat, other: nat)
    ensures SameUnit(own, Scale(own, other), other, Scale(other, own))
  {
    if other > own {
      PowAdds(other - own, own);
    } else if own > other {
      PowAdds(own - other, other);
    }
  }

  /** USDC and fUSDC are compared coin for coin if and only if fUSDC has no more decimals; otherwise a
      USDC counts ten times. */
  lemma UsdcUnit(usdc: nat, fusdc: nat)
    ensures SameUnit(usdc, UsdcScale(usdc, fusdc), fusdc, Scale(fusdc, usdc)) <==> fusdc <= usdc
    ensures fusdc > usdc ==>
      UsdcScale(usdc, fusdc) * Pow10(usdc) == 10 * (Scale(fusdc, usdc) * Pow10(fusdc))
  {
    ScaleMeetsUnit(usdc, fusdc);
    if fusdc > usdc {
      PowAdds(fusdc - usdc + 1, usdc);
      assert Pow10(fusdc + 1) == 10 * Pow10(fusdc);
    }
  }

  /** Both pairs share fairly; None exactly when a nonempty pair meets a one-sided ratio. */
  method PickRatio(fusdcUsdcRatio: int, fusdcWethRatio: int, maxFusdc: nat, maxUsdc: nat, maxWeth: nat,
    fusdcDecimals: nat, usdcDecimals: nat, wethDecimals: nat) returns (r: Option<Amounts>)
    ensures r.None? <==>
      && maxFusdc > 0
      && ((maxUsdc > 0 && (fusdcUsdcRatio == 0 || fusdcUsdcRatio == FULL))
        || (maxWeth > 0 && (fusdcWethRatio == 0 || fusdcWethRatio == FULL)))
    ensures r.Some? && maxFusdc > 0 && maxUsdc > 0 && 0 < fusdcUsdcRatio < FULL ==>
      FairScaled(r.value.fusdcForUsdc, r.value.usdc, maxFusdc, maxUsdc,
        Scale(fusdcDecimals, usdcDecimals), UsdcScale(usdcDecimals, fusdcDecimals),
        fusdcUsdcRatio, FULL - fusdcUsdcRatio)
    ensures r.Some? && maxFusdc > 0 && maxWeth > 0 && 0 < fusdcWethRatio < FULL ==>
      FairScaled(r.value.fusdcForWeth, r.value.weth, maxFusdc, maxWeth,
        Scale(fusdcDecimals, wethDecimals), Scale(wethDecimals, fusdcDecimals),
        fusdcWethRatio, FULL - fusdcWethRatio)
    ensures r.Some? && maxFusdc > 0 && maxUsdc > 0 && (fusdcUsdcRatio < 0 || fusdcUsdcRatio > FULL) ==>
      Lopsided(r.value.fusdcForUsdc, r.value.usdc, maxFusdc, maxUsdc, fusdcUsdcRatio)
    ensures r.Some? && maxFusdc > 0 && maxWeth > 0 && (fusdcWethRatio < 0 || fusdcWethRatio > FULL) ==>
      Lopsided(r.value.fusdcForWeth, r.value.weth, maxFusdc, maxWeth, fusdcWethRatio)
    ensures r.Some? && (maxFusdc == 0 || maxUsdc == 0) ==> r.value.fusdcForUsdc == 0 == r.value.usdc
    ensures r.Some? && (maxFusdc == 0 || maxWeth == 0) ==> r.value.fusdcForWeth == 0 == r.value.weth
  {
    hide AllocateRatio, FairScaled, Lopsided, Pow10, Div;
    var fusdcUsdcDecimalsAdjustment, fusdcWethDecimalsAdjustment := 1, 1;
    var usdcDecimalsAdjustment, wethDecimalsAdjustment := 1, 1;

    if fusdcDecimals > usdcDecimals {
      usdcDecimalsAdjustment := Pow10(fusdcDecimals - usdcDecimals + 1);
    }
    if usdcDecimals > fusdcDecimals {
      fusdcUsdcDecimalsAdjustment := Pow10(usdcDecimals - fusdcDecimals);
    }
    if fusdcDecimals > wethDecimals {
      wethDecimalsAdjustment := Pow10(fusdcDecimals - wethDecimals);
    }
    if wethDecimals > fusdcDecimals {
      fusdcWethDecimalsAdjustment := Pow10(wethDecimals - fusdcDecimals);
    }

    var usdc := AllocatePair(maxFusdc, maxUsdc, fusdcUsdcDecimalsAdjustment, usdcDecimalsAdjustment, fusdcUsdcRatio);
    if usdc.None? {
      return None;
    }
    var weth := AllocatePair(maxFusdc, maxWeth, fusdcWethDecimalsAdjustment, wethDecimalsAdjustment, fusdcWethRatio);
    if weth.None? {
      return None;
    }
    return Some(Amounts(usdc.value.0, usdc.value.1, weth.value.0, weth.value.1));
  }

  /** Scales both amounts up, allocates, and scales both shares down. */
  method AllocatePair(max1: nat, max2: nat, scale1: nat, scale2: nat, ratio: int) returns (r: Option<(int, int)>)
    requires scale1 > 0 && scale2 > 0
    ensures r.None? <==> max1 > 0 && max2 > 0 && (ratio == 0 || ratio == FULL)
    ensures r.Some? && max1 > 0 && max2 > 0 && 0 < ratio < FULL ==>
      FairScaled(r.value.0, r.value.1, max1, max2, scale1, scale2, ratio, FULL - ratio)
    ensures r.Some? && max1 > 0 && max2 > 0 && (ratio < 0 || ratio > FULL) ==>
      Lopsided(r.value.0, r.value.1, max1, max2, ratio)
    ensures r.Some? && (max1 == 0 || max2 == 0) ==> r.value == (0, 0)
  {
    hide AllocateRatio, FairScaled, Lopsided;
    Nonnegative(max1, scale1);
    Nonnegative(max2, scale2);
    AllocationFails(max1 * scale1, max2 * scale2, ratio);
    if max1 > 0 && max2 > 0 {
      Positive(max1, scale1);
      Positive(max2, scale2);
    }
    var shares := AllocateRatio(max1 * scale1, max2 * scale2, ratio);
    if shares.None? {
      return None;
    }
    if 0 < ratio < FULL && max1 > 0 && max2 > 0 {
      ScalingKeepsFair(max1, max2, scale1, scale2, ratio);
    }
    if (ratio < 0 || ratio > FULL) && max1 > 0 && max2 > 0 {
      AllocationLopsided(max1 * scale1, max2 * scale2, ratio);
      LopsidedScaled(shares.value.0, shares.value.1, max1, max2, scale1, scale2, ratio);
    }
    var a := Div(shares.value.0, scale1);
    var b := Div(shares.value.1, scale2);
    return Some((a, b));
  }
}
