/** Pricing the reward tiers and splitting each over the distribution pools
    (common/calculation/probability/probability.go). */
module Payouts {
  import opened Combinatorics
  import opened Rewards

  datatype TrfMode = Normal | NoOptimisticSolution

  // ---- the price of a tier

  /** The divisions below panic on zero; this is when none does. */
  predicate PayoutDefined(mode: TrfMode, atx: real, g: real, delta: real, m: nat) {
    m > 0 && (atx != 0.0 || (mode.Normal? && g * atx < delta))
  }

  /** The part of the expected reward given to each tier. */
  function Allowance(mode: TrfMode, atx: real, g: real, delta: real, m: nat): real
    requires PayoutDefined(mode, atx, g, delta, m)
  {
    if mode.NoOptimisticSolution? then delta / (atx * m as real)
    else if g * atx < delta then g / m as real
    else delta / (atx * m as real)
  }

  function Payout(mode: TrfMode, atx: real, g: real, delta: real, m: nat, n: nat, b: nat): real
    requires PayoutDefined(mode, atx, g, delta, m) && b <= m <= n
  {
    var p := Probability(m, n, b);
    if p == 0.0 then 0.0 else Allowance(mode, atx, g, delta, m) / p
  }

  /** What each tier adds to the expected reward of a transfer: chance times payout. */
  ghost function Contributions(mode: TrfMode, atx: real, g: real, delta: real, m: nat, n: nat): (cs: seq<real>)
    requires PayoutDefined(mode, atx, g, delta, m) && m <= n
    ensures |cs| == m
  {
    seq(m, i requires 0 <= i < m => Probability(m, n, i + 1) * Payout(mode, atx, g, delta, m, n, i + 1))
  }

  ghost function Sum(cs: seq<real>): real {
    if cs == [] then 0.0 else Sum(cs[..|cs| - 1]) + cs[|cs| - 1]
  }

  ghost function ExpectedReward(mode: TrfMode, atx: real, g: real, delta: real, m: nat, n: nat): real
    requires PayoutDefined(mode, atx, g, delta, m) && m <= n
  {
    Sum(Contributions(mode, atx, g, delta, m, n))
  }

  ghost function Bound(mode: TrfMode, atx: real, g: real, delta: real): real
    requires atx > 0.0
  {
    if mode.NoOptimisticSolution? || delta / atx < g then delta / atx else g
  }

  /** How many of the tiers 1..top are possible. */
  ghost function PossibleTiers(m: nat, n: nat, top: nat): nat
    requires top <= m <= n
  {
    if top == 0 then 0 else PossibleTiers(m, n, top - 1) + if m - top <= n - m then 1 else 0
  }

  lemma {:induction false} SumOfPossible(cs: seq<real>, a: real, m: nat, n: nat)
    requires |cs| <= m <= n
    requires forall i :: 0 <= i < |cs| ==> cs[i] == if m - (i + 1) <= n - m then a else 0.0
    ensures PossibleTiers(m, n, |cs|) <= |cs|
    ensures Sum(cs) == PossibleTiers(m, n, |cs|) as real * a
  {
    if cs != [] {
      SumOfPossible(cs[..|cs| - 1], a, m, n);
      Increment(PossibleTiers(m, n, |cs| - 1), a);
    }
  }

  /** A possible tier contributes its allowance to the expectation, an impossible one nothing. */
  lemma TierContribution(mode: TrfMode, atx: real, g: real, delta: real, m: nat, n: nat, b: nat)
    requires PayoutDefined(mode, atx, g, delta, m) && b <= m <= n
    ensures Probability(m, n, b) * Payout(mode, atx, g, delta, m, n, b)
         == if m - b <= n - m then Allowance(mode, atx, g, delta, m) else 0.0
  {
    ProbabilityZero(m, n, b);
    if m - b <= n - m {
      TimesQuotient(Probability(m, n, b), Allowance(mode, atx, g, delta, m));
    }
  }

  lemma TimesQuotient(p: real, a: real)
    requires p != 0.0
    ensures p * (a / p) == a
  {}

  lemma Increment(k: nat, a: real)
    ensures (k + 1) as real * a == k as real * a + a
  {}

  lemma AllowanceShares(mode: TrfMode, atx: real, g: real, delta: real, m: nat)
    requires PayoutDefined(mode, atx, g, delta, m) && atx > 0.0
    ensures m as real * Allowance(mode, atx, g, delta, m) == Bound(mode, atx, g, delta)
  {
    CompareQuotient(g, atx, delta);
    if mode.Normal? && g * atx < delta {
      TimesQuotient(m as real, g);
    } else {
      DivideTwice(delta, atx, m as real);
    }
  }

  lemma DivideTwice(x: real, y: real, z: real)
    requires y != 0.0 && z != 0.0
    ensures y * z != 0.0 && z * (x / (y * z)) == x / y
  {
    var q := x / (y * z);
    assert q * (y * z) == x;
    assert (z * q) * y == q * (y * z);
    DivideByFactor(z * q, y);
  }

  lemma DivideByFactor(a: real, y: real)
    requires y != 0.0
    ensures (a * y) / y == a
  {}

  lemma CompareQuotient(g: real, atx: real, delta: real)
    requires atx > 0.0
    ensures g * atx < delta <==> g < delta / atx
  {
    var q := delta / atx;
    assert q * atx == delta;
    CancelFactor(g, q, atx);
  }

  lemma ScaleDown(k: nat, m: nat, a: real)
    requires k <= m && a >= 0.0
    ensures k as real * a <= m as real * a
  {
    assert (m - k) as real * a >= 0.0;
    assert m as real * a - k as real * a == (m - k) as real * a;
  }

  lemma {:induction false} AllTiersPossible(m: nat, n: nat, top: nat)
    requires top <= m <= n
    ensures PossibleTiers(m, n, top) == top <==> top == 0 || m - 1 <= n - m
    ensures PossibleTiers(m, n, top) <= top
  {
    if top > 0 {
      AllTiersPossible(m, n, top - 1);
    }
  }

  lemma AllowanceNonNegative(mode: TrfMode, atx: real, g: real, delta: real, m: nat)
    requires PayoutDefined(mode, atx, g, delta, m) && atx > 0.0 && g >= 0.0 && delta >= 0.0
    ensures Allowance(mode, atx, g, delta, m) >= 0.0
  {
    PositiveDenominator(delta, atx, m as real);
  }

  lemma PositiveDenominator(x: real, y: real, z: real)
    requires x >= 0.0 && y > 0.0 && z > 0.0
    ensures y * z > 0.0 && x / (y * z) >= 0.0
  {}

  lemma PayoutNonNegative(mode: TrfMode, atx: real, g: real, delta: real, m: nat, n: nat, b: nat)
    requires PayoutDefined(mode, atx, g, delta, m) && atx > 0.0 && g >= 0.0 && delta >= 0.0 && b <= m <= n
    ensures Payout(mode, atx, g, delta, m, n, b) >= 0.0
  {
    AllowanceNonNegative(mode, atx, g, delta, m);
    ProbabilityZero(m, n, b);
    hide Allowance, Probability;
    assert Probability(m, n, b) != 0.0 ==> Allowance(mode, atx, g, delta, m) / Probability(m, n, b) >= 0.0;
  }

  lemma RewardIsTiersTimesAllowance(mode: TrfMode, atx: real, g: real, delta: real, m: nat, n: nat)
    requires PayoutDefined(mode, atx, g, delta, m) && m <= n
    ensures ExpectedReward(mode, atx, g, delta, m, n)
         == PossibleTiers(m, n, m) as real * Allowance(mode, atx, g, delta, m)
  {
    hide Allowance, Payout, Probability;
    var a, cs := Allowance(mode, atx, g, delta, m), Contributions(mode, atx, g, delta, m, n);
    forall i | 0 <= i < m ensures cs[i] == if m - (i + 1) <= n - m then a else 0.0 {
      TierContribution(mode, atx, g, delta, m, n, i + 1);
    }
    SumOfPossible(cs, a, m, n);
  }

  /** What a transfer is expected to win is at most the gas fee g (but without the optimistic solution
      that does not matter) and at most delta / atx; it is the lesser of the two if and only if no tier is
      impossible, i.e. n >= 2m - 1, or the lesser is nothing. */
  lemma ExpectedRewardBound(mode: TrfMode, atx: real, g: real, delta: real, m: nat, n: nat)
    requires 0 < m <= n && atx > 0.0 && g >= 0.0 && delta >= 0.0
    ensures PayoutDefined(mode, atx, g, delta, m)
    ensures var expected := ExpectedReward(mode, atx, g, delta, m, n);
            var most := if mode.Normal? && g < delta / atx then g else delta / atx;
            && 0.0 <= expected <= most
            && (expected == most <==> n >= 2 * m - 1 || most == 0.0)
  {
    hide Allowance, ExpectedReward;
    var a, k := Allowance(mode, atx, g, delta, m), PossibleTiers(m, n, m);
    RewardIsTiersTimesAllowance(mode, atx, g, delta, m, n);
    AllowanceNonNegative(mode, atx, g, delta, m);
    AllowanceShares(mode, atx, g, delta, m);
    AllTiersPossible(m, n, m);
    Compare(k, m, a, ExpectedReward(mode, atx, g, delta, m, n), Bound(mode, atx, g, delta));
    BoundIsLesser(mode, atx, g, delta);
  }

  lemma BoundIsLesser(mode: TrfMode, atx: real, g: real, delta: real)
    requires atx > 0.0
    ensures Bound(mode, atx, g, delta) == if mode.Normal? && g < delta / atx then g else delta / atx
  {}

  /** A tier that can occur is priced so that its probability times its payout is an m-th of what there is
      to give; one that cannot pays nothing. */
  lemma TierPrice(mode: TrfMode, atx: real, g: real, delta: real, m: nat, n: nat, b: nat)
    requires atx > 0.0 && 0 < b <= m <= n
    ensures PayoutDefined(mode, atx, g, delta, m)
    ensures var payout, p := Payout(mode, atx, g, delta, m, n, b), Probability(m, n, b);
            if m - b <= n - m
            then m as real * (p * payout) == if mode.Normal? && g < delta / atx then g else delta / atx
            else payout == 0.0
  {
    hide Allowance, Probability, Payout, Bound;
    TierContribution(mode, atx, g, delta, m, n, b);
    ProbabilityZero(m, n, b);
    ImpossiblePaysNothing(mode, atx, g, delta, m, n, b);
    AllowanceShares(mode, atx, g, delta, m);
    BoundIsLesser(mode, atx, g, delta);
  }

  lemma ImpossiblePaysNothing(mode: TrfMode, atx: real, g: real, delta: real, m: nat, n: nat, b: nat)
    requires PayoutDefined(mode, atx, g, delta, m) && b <= m <= n
    ensures Probability(m, n, b) == 0.0 ==> Payout(mode, atx, g, delta, m, n, b) == 0.0
  {}

  lemma Compare(k: nat, m: nat, a: real, some: real, all: real)
    requires k <= m && m > 0 && a >= 0.0 && some == k as real * a && all == m as real * a
    ensures 0.0 <= some <= all && (some == all <==> k == m || all == 0.0)
  {
    ScaleDown(k, m, a);
    ScaleDown(0, k, a);
    assert m as real * a - k as real * a == (m - k) as real * a;
    Zero((m - k) as real, a);
    Zero(m as real, a);
  }

  lemma Zero(x: real, y: real)
    ensures x * y == 0.0 <==> x == 0.0 || y == 0.0
  {
    if x != 0.0 {
      assert y == (x * y) / x;
    }
  }

  // ---- splitting a tier over the pools

  datatype Pool = Pool(name: string, size: real, scale: real, rate: real, weight: real)
  datatype TierPayout = TierPayout(native: int, usd: real)

  /** Integer part, towards zero. */
  function Truncate(x: real): (t: int)
    ensures x >= 0.0 ==> t as real <= x < t as real + 1.0
    ensures x <= 0.0 ==> t as real - 1.0 < x <= t as real
  {
    if x >= 0.0 then x.Floor else -((-x).Floor)
  }

  function PoolBpy(blockTime: real, pool: Pool): real
    requires pool.scale != 0.0 && pool.weight != 0.0
  {
    blockTime * (pool.size / pool.scale * pool.rate) / pool.weight
  }

  predicate Rated(pools: seq<Pool>) {
    forall i :: 0 <= i < |pools| ==> pools[i].scale != 0.0 && pools[i].weight != 0.0
  }

  predicate PoolsDefined(pools: seq<Pool>) {
    forall i :: 0 <= i < |pools| ==> pools[i].scale != 0.0 && pools[i].weight != 0.0 && pools[i].rate != 0.0
  }

  function TotalBpy(blockTime: real, pools: seq<Pool>): real
    requires Rated(pools)
  {
    if pools == [] then 0.0 else TotalBpy(blockTime, pools[..|pools| - 1]) + PoolBpy(blockTime, pools[|pools| - 1])
  }

  /** One pool's share of a tier's payout. */
  function Share(payout: real, blockTime: real, total: real, pool: Pool): TierPayout
    requires pool.scale != 0.0 && pool.weight != 0.0 && pool.rate != 0.0 && total != 0.0
  {
    InNative(UsdShare(payout, PoolBpy(blockTime, pool), total), pool)
  }

  /** The part of the payout, in USD, that a pool with the given rate contributes. */
  function UsdShare(payout: real, bpy: real, total: real): real
    requires total != 0.0
  {
    payout * (bpy / total)
  }

  /** A USD amount with its whole number of the pool's native units. */
  function InNative(usd: real, pool: Pool): TierPayout
    requires pool.rate != 0.0
  {
    TierPayout(Truncate(usd / pool.rate * pool.scale), usd)
  }

  /** A tier's payout shared over the pools. */
  function Shares(payout: real, blockTime: real, total: real, pools: seq<Pool>): (shares: seq<TierPayout>)
    requires PoolsDefined(pools) && (pools != [] ==> total != 0.0)
    ensures |shares| == |pools|
  {
    seq(|pools|, k requires 0 <= k < |pools| => Share(payout, blockTime, total, pools[k]))
  }

  /** No later pool has the name of pool k, so pool k's share is the one kept. */
  ghost predicate IsLast(pools: seq<Pool>, k: nat)
    requires k < |pools|
  {
    forall j :: k < j < |pools| ==> pools[j].name != pools[k].name
  }

  type PayoutTable = map<string, seq<TierPayout>>

  ghost function Names(pools: seq<Pool>): set<string> {
    set p | p in pools :: p.name
  }

  ghost predicate Shaped(table: PayoutTable, pools: seq<Pool>, m: nat) {
    && table.Keys == Names(pools)
    && forall name :: name in table ==> |table[name]| == m
  }

  /** Row i of the table holds the shares, under the names of their pools. */
  ghost predicate RowHolds(table: PayoutTable, pools: seq<Pool>, shares: seq<TierPayout>, i: nat)
    requires |shares| == |pools|
  {
    forall k :: 0 <= k < |pools| && IsLast(pools, k) ==>
      && pools[k].name in table && i < |table[pools[k].name]|
      && table[pools[k].name][i] == shares[k]
  }

  ghost predicate SameOtherRows(table: PayoutTable, table0: PayoutTable, m: nat, i: nat) {
    forall name, j | name in table0 && name in table && 0 <= j < m && j != i ::
      j < |table0[name]| && j < |table[name]| ==> table[name][j] == table0[name][j]
  }

  /** The inner loop of WinningChances: store one tier's shares. */
  method StoreShares(table0: PayoutTable, pools: seq<Pool>, shares: seq<TierPayout>, i: nat, m: nat)
    returns (table: PayoutTable)
    requires |shares| == |pools| && Shaped(table0, pools, m) && i < m
    ensures Shaped(table, pools, m) && RowHolds(table, pools, shares, i) && SameOtherRows(table, table0, m, i)
  {
    hide RowHolds;
    table := table0;
    assert RowHolds(table, pools[..0], shares[..0], i) by { NoPoolsHold(table, i); }
    for idx := 0 to |pools|
      invariant Shaped(table, pools, m) && SameOtherRows(table, table0, m, i)
      invariant RowHolds(table, pools[..idx], shares[..idx], i)
    {
      var name := pools[idx].name;
      assert pools[idx] in pools;
      ghost var before := table;
      table := table[name := table[name][i := shares[idx]]];
      StoreOne(before, table, pools[..idx], shares[..idx], pools[idx], shares[idx], i);
      assert pools[..idx + 1] == pools[..idx] + [pools[idx]];
      assert shares[..idx + 1] == shares[..idx] + [shares[idx]];
    }
    assert pools[..|pools|] == pools && shares[..|shares|] == shares;
  }

  lemma NoPoolsHold(table: PayoutTable, i: nat)
    ensures RowHolds(table, [], [], i)
  {}

  lemma StoreOne(before: PayoutTable, after: PayoutTable, pools: seq<Pool>, shares: seq<TierPayout>,
                 pool: Pool, share: TierPayout, i: nat)
    requires |shares| == |pools| && RowHolds(before, pools, shares, i)
    requires pool.name in before && i < |before[pool.name]|
    requires after == before[pool.name := before[pool.name][i := share]]
    ensures RowHolds(after, pools + [pool], shares + [share], i)
  {
    var pools', shares' := pools + [pool], shares + [share];
    forall k | 0 <= k < |pools'| && IsLast(pools', k)
      ensures pools'[k].name in after && i < |after[pools'[k].name]| && after[pools'[k].name][i] == shares'[k]
    {
      if k < |pools| {
        assert pools'[|pools|].name != pools'[k].name;
        assert IsLast(pools, k) by {
          forall j | k < j < |pools| ensures pools[j].name != pools[k].name { assert pools'[j] == pools[j]; }
        }
      }
    }
  }

  /** No division panics in pricing m tiers and sharing them over the pools. */
  predicate Payable(mode: TrfMode, atx: real, g: real, m: nat, pools: seq<Pool>, blockTime: real)
    requires Rated(pools)
  {
    m > 0 ==>
      var delta := TotalBpy(blockTime, pools);
      && PoolsDefined(pools) && PayoutDefined(mode, atx, g, delta, m) && (pools != [] ==> delta != 0.0)
  }

  datatype Chances = Panicked | Chances(n: nat, payouts: PayoutTable, probabilities: seq<real>)

  /** Every tier is priced by Payout and shared over the pools by Shares. */
  ghost predicate Priced(o: Chances, mode: TrfMode, atx: real, g: real, delta: real, m: nat, pools: seq<Pool>,
                         blockTime: real, tiers: nat)
    requires o.Chances? && tiers <= m <= o.n
    requires m > 0 ==>
      PoolsDefined(pools) && PayoutDefined(mode, atx, g, delta, m) && (pools != [] ==> delta != 0.0)
  {
    && Shaped(o.payouts, pools, m)
    && |o.probabilities| == tiers
    && forall i :: 0 <= i < tiers ==> TierPriced(o, mode, atx, g, delta, m, pools, blockTime, i)
  }

  ghost predicate TierPriced(o: Chances, mode: TrfMode, atx: real, g: real, delta: real, m: nat, pools: seq<Pool>,
                             blockTime: real, i: nat)
    requires o.Chances? && i < m <= o.n && i < |o.probabilities| && PoolsDefined(pools)
    requires PayoutDefined(mode, atx, g, delta, m) && (pools != [] ==> delta != 0.0)
  {
    && o.probabilities[i] == Probability(m, o.n, i + 1)
    && RowHolds(o.payouts, pools, Shares(Payout(mode, atx, g, delta, m, o.n, i + 1), blockTime, delta, pools), i)
  }

  method SumBpys(pools: seq<Pool>, blockTime: real, m: nat) returns (payouts: PayoutTable, total: real)
    requires Rated(pools)
    ensures Shaped(payouts, pools, m) && total == TotalBpy(blockTime, pools)
  {
    payouts, total := map[], 0.0;
    for k := 0 to |pools|
      invariant total == TotalBpy(blockTime, pools[..k]) && Shaped(payouts, pools[..k], m)
    {
      assert pools[..k + 1] == pools[..k] + [pools[k]];
      assert Names(pools[..k + 1]) == Names(pools[..k]) + {pools[k].name};
      payouts := payouts[pools[k].name := seq(m, _ => TierPayout(0, 0.0))];
      total := total + PoolBpy(blockTime, pools[k]);
    }
    assert pools[..|pools|] == pools;
  }

  method WinningChances(mode: TrfMode, gasFee: real, atx: real, payoutFreq: real, pools: seq<Pool>,
                        winningClasses: int, averageTransfersInBlock: int, blockTimeInSeconds: nat)
    returns (o: Chances)
    ensures o.Chances? <==>
      && winningClasses >= 0
      && (forall k :: 0 <= k < |pools| ==> pools[k].scale != 0.0 && pools[k].weight != 0.0)
      && atx * payoutFreq <= Binomial(winningClasses + MAX_ITERATIONS, winningClasses) as real
      && (winningClasses > 0 ==>
            var perBlock, worth := averageTransfersInBlock as real, BlockWorth(blockTimeInSeconds as real, pools);
            && (forall k :: 0 <= k < |pools| ==> pools[k].rate != 0.0)
            && (perBlock != 0.0 || (mode.Normal? && gasFee * perBlock < worth))
            && (pools != [] ==> worth != 0.0))
    ensures o.Chances? ==>
              && IsLeastCount(o.n, winningClasses, atx * payoutFreq)
              && Priced(o, mode, averageTransfersInBlock as real, gasFee,
                        BlockWorth(blockTimeInSeconds as real, pools), winningClasses, pools,
                        blockTimeInSeconds as real, winningClasses)
  {
    PayableExactly(mode, averageTransfersInBlock as real, gasFee, winningClasses, pools, blockTimeInSeconds as real);
    hide BlockWorth, Shares, Share, Payout, Allowance, Probability, TotalBpy, Rated, PoolsDefined, Payable, PayoutDefined,
      TierPriced, RowHolds, SameOtherRows, AllBelow, Binomial, Shaped;
    var blockTime, perBlock := blockTimeInSeconds as real, averageTransfersInBlock as real;
    var count := CalculateN(winningClasses, payoutFreq, atx);
    if !count.Balls? {
      return Panicked;
    }
    var m := winningClasses;
    if !Rated(pools) {
      return Panicked;
    }
    var payouts, total := SumBpys(pools, blockTime, m);
    if !Payable(mode, perBlock, gasFee, m, pools, blockTime) {
      return Panicked;
    }
    PayableMeans(mode, perBlock, gasFee, m, pools, blockTime);
    o := Chances(count.n, payouts, []);
    for i := 0 to m
      invariant o.Chances? && o.n == count.n
      invariant m > 0 ==> PoolsDefined(pools) && PayoutDefined(mode, perBlock, gasFee, total, m) && (pools != [] ==> total != 0.0)
      invariant Priced(o, mode, perBlock, gasFee, total, m, pools, blockTime, i)
    {
      var payout := Payout(mode, perBlock, gasFee, total, m, o.n, i + 1);
      ghost var before := o;
      payouts := StoreShares(o.payouts, pools, Shares(payout, blockTime, total, pools), i, m);
      o := Chances(o.n, payouts, o.probabilities + [Probability(m, o.n, i + 1)]);
      OneTier(before, o, mode, perBlock, gasFee, total, m, pools, blockTime, i);
    }
  }

  lemma PayableExactly(mode: TrfMode, atx: real, g: real, m: int, pools: seq<Pool>, blockTime: real)
    ensures Rated(pools) <==> forall k :: 0 <= k < |pools| ==> pools[k].scale != 0.0 && pools[k].weight != 0.0
    ensures Rated(pools) ==>
      && TotalBpy(blockTime, pools) == BlockWorth(blockTime, pools)
      && (m >= 0 ==>
           (Payable(mode, atx, g, m, pools, blockTime) <==>
             (m > 0 ==>
               var worth := BlockWorth(blockTime, pools);
               && (forall k :: 0 <= k < |pools| ==> pools[k].rate != 0.0)
               && (atx != 0.0 || (mode.Normal? && g * atx < worth))
               && (pools != [] ==> worth != 0.0))))
  {
    if Rated(pools) {
      TotalIsBlockWorth(blockTime, pools);
      hide TotalBpy, BlockWorth;
      assert PoolsDefined(pools) <==> forall k :: 0 <= k < |pools| ==> pools[k].rate != 0.0;
    }
  }

  lemma PayableMeans(mode: TrfMode, atx: real, g: real, m: nat, pools: seq<Pool>, blockTime: real)
    requires Rated(pools) && Payable(mode, atx, g, m, pools, blockTime)
    ensures var delta := TotalBpy(blockTime, pools);
            m > 0 ==> PoolsDefined(pools) && PayoutDefined(mode, atx, g, delta, m) && (pools != [] ==> delta != 0.0)
  {}

  lemma OneTier(before: Chances, after: Chances, mode: TrfMode, atx: real, g: real, delta: real, m: nat,
                pools: seq<Pool>, blockTime: real, i: nat)
    requires before.Chances? && after.Chances? && i < m <= before.n && after.n == before.n
    requires PoolsDefined(pools) && PayoutDefined(mode, atx, g, delta, m) && (pools != [] ==> delta != 0.0)
    requires Priced(before, mode, atx, g, delta, m, pools, blockTime, i)
    requires after.probabilities == before.probabilities + [Probability(m, before.n, i + 1)]
    requires Shaped(after.payouts, pools, m) && SameOtherRows(after.payouts, before.payouts, m, i)
    requires RowHolds(after.payouts, pools, Shares(Payout(mode, atx, g, delta, m, before.n, i + 1), blockTime, delta, pools), i)
    ensures Priced(after, mode, atx, g, delta, m, pools, blockTime, i + 1)
  {
    hide Shares, Payout, Probability, PayoutDefined;
    forall j | 0 <= j < i ensures TierPriced(after, mode, atx, g, delta, m, pools, blockTime, j) {
      assert TierPriced(before, mode, atx, g, delta, m, pools, blockTime, j);
    }
  }

  // ---- conservation

  ghost predicate Distributing(pools: seq<Pool>, blockTime: real) {
    && blockTime >= 0.0
    && (forall k :: 0 <= k < |pools| ==>
          pools[k].size >= 0.0 && pools[k].scale > 0.0 && pools[k].rate > 0.0 && pools[k].weight > 0.0)
    && (forall j, k :: 0 <= j < k < |pools| ==> pools[j].name != pools[k].name)
  }

  ghost function Usd(shares: seq<TierPayout>): real {
    if shares == [] then 0.0 else Usd(shares[..|shares| - 1]) + shares[|shares| - 1].usd
  }

  /** The USD value of native amounts, one per pool. */
  ghost function Value(shares: seq<TierPayout>, pools: seq<Pool>): real
    requires |shares| == |pools| && PoolsDefined(pools)
  {
    if shares == [] then 0.0 else
      var last := |shares| - 1;
      Value(shares[..last], pools[..last]) + Worth(shares[last].native, pools[last])
  }

  ghost function Worth(native: int, pool: Pool): real
    requires pool.scale != 0.0
  {
    native as real / pool.scale * pool.rate
  }

  ghost function UnitWorth(pool: Pool): real
    requires pool.scale != 0.0
  {
    pool.rate / pool.scale
  }

  /** The USD value of one native unit of every pool. */
  ghost function Units(pools: seq<Pool>): real
    requires PoolsDefined(pools)
  {
    if pools == [] then 0.0 else
      var last := |pools| - 1;
      Units(pools[..last]) + UnitWorth(pools[last])
  }

  lemma BpyNonNegative(blockTime: real, pool: Pool)
    requires blockTime >= 0.0 && pool.size >= 0.0 && pool.scale > 0.0 && pool.rate > 0.0 && pool.weight > 0.0
    ensures PoolBpy(blockTime, pool) >= 0.0
  {
    var usd := pool.size / pool.scale * pool.rate;
    assert pool.size / pool.scale >= 0.0;
    assert usd >= 0.0;
    assert blockTime * usd >= 0.0;
  }

  lemma {:induction false} TotalBpyNonNegative(blockTime: real, pools: seq<Pool>)
    requires PoolsDefined(pools) && Distributing(pools, blockTime)
    ensures TotalBpy(blockTime, pools) >= 0.0
  {
    if pools != [] {
      TotalBpyNonNegative(blockTime, pools[..|pools| - 1]);
      BpyNonNegative(blockTime, pools[|pools| - 1]);
    }
  }

  lemma AddShare(payout: real, a: real, b: real, total: real)
    requires total != 0.0
    ensures payout * ((a + b) / total) == payout * (a / total) + payout * (b / total)
  {
    assert (a + b) / total == a / total + b / total;
  }

  lemma SharesPrefix(payout: real, blockTime: real, total: real, pools: seq<Pool>, k: nat)
    requires PoolsDefined(pools) && total != 0.0 && k <= |pools|
    ensures Shares(payout, blockTime, total, pools)[..k] == Shares(payout, blockTime, total, pools[..k])
  {}

  /** Exact USD shares: any prefix of the pools receives its part of the total rate. */
  lemma {:induction false} UsdOfShares(payout: real, blockTime: real, total: real, pools: seq<Pool>)
    requires PoolsDefined(pools) && total != 0.0
    ensures Usd(Shares(payout, blockTime, total, pools)) == payout * (TotalBpy(blockTime, pools) / total)
  {
    if pools != [] {
      var last := |pools| - 1;
      UsdOfShares(payout, blockTime, total, pools[..last]);
      SharesPrefix(payout, blockTime, total, pools, last);
      AddShare(payout, TotalBpy(blockTime, pools[..last]), PoolBpy(blockTime, pools[last]), total);
    }
  }

  lemma TruncationLoss(usd: real, pool: Pool)
    requires usd >= 0.0 && pool.rate > 0.0 && pool.scale > 0.0
    ensures Truncated(InNative(usd, pool), pool)
  {
    hide Worth, UnitWorth;
    var exact := usd / pool.rate * pool.scale;
    assert exact >= 0.0 by { assert usd / pool.rate >= 0.0; }
    LossBounds(usd, exact, exact.Floor, pool);
    assert InNative(usd, pool).native == exact.Floor && InNative(usd, pool).usd == usd;
  }

  lemma LossBounds(usd: real, exact: real, native: int, pool: Pool)
    requires pool.rate > 0.0 && pool.scale > 0.0 && exact == usd / pool.rate * pool.scale
    requires native as real <= exact < native as real + 1.0
    ensures Worth(native, pool) <= usd < Worth(native, pool) + UnitWorth(pool)
  {
    Rescale(usd, pool.rate, pool.scale);
    Monotone(native as real, exact, pool.rate, pool.scale);
    Monotone(exact, native as real + 1.0, pool.rate, pool.scale);
    OneMore(native as real, pool.rate, pool.scale);
  }

  lemma OneMore(x: real, rate: real, scale: real)
    requires scale > 0.0
    ensures (x + 1.0) / scale * rate == x / scale * rate + rate / scale
  {
    assert (x + 1.0) / scale == x / scale + 1.0 / scale;
    assert 1.0 / scale * rate == rate / scale;
  }

  lemma Rescale(usd: real, rate: real, scale: real)
    requires rate > 0.0 && scale > 0.0
    ensures usd / rate * scale / scale * rate == usd
  {}

  lemma Monotone(x: real, y: real, rate: real, scale: real)
    requires rate > 0.0 && scale > 0.0
    ensures x <= y ==> x / scale * rate <= y / scale * rate
    ensures x < y ==> x / scale * rate < y / scale * rate
  {
    var u := rate / scale;
    assert u > 0.0;
    assert x / scale * rate == x * u && y / scale * rate == y * u;
    CancelFactor(x, y, u);
    CancelFactor(y, x, u);
  }

  lemma ShareNonNegative(payout: real, bpy: real, total: real)
    requires payout >= 0.0 && bpy >= 0.0 && total > 0.0
    ensures UsdShare(payout, bpy, total) >= 0.0
  {
    assert bpy / total >= 0.0;
  }

  ghost predicate Truncated(share: TierPayout, pool: Pool)
    requires pool.scale != 0.0
  {
    Worth(share.native, pool) <= share.usd < Worth(share.native, pool) + UnitWorth(pool)
  }

  lemma ShareTruncated(payout: real, blockTime: real, total: real, pool: Pool)
    requires blockTime >= 0.0 && total > 0.0 && payout >= 0.0
    requires pool.size >= 0.0 && pool.scale > 0.0 && pool.rate > 0.0 && pool.weight > 0.0
    ensures Truncated(Share(payout, blockTime, total, pool), pool)
  {
    hide Truncated, InNative;
    BpyNonNegative(blockTime, pool);
    ShareNonNegative(payout, PoolBpy(blockTime, pool), total);
    TruncationLoss(UsdShare(payout, PoolBpy(blockTime, pool), total), pool);
  }

  lemma {:induction false} TruncatedValue(shares: seq<TierPayout>, pools: seq<Pool>)
    requires PoolsDefined(pools) && |shares| == |pools|
    requires forall k :: 0 <= k < |pools| ==> Truncated(shares[k], pools[k])
    ensures Value(shares, pools) <= Usd(shares) <= Value(shares, pools) + Units(pools)
    ensures pools != [] ==> Usd(shares) < Value(shares, pools) + Units(pools)
  {
    hide Worth, UnitWorth;
    if pools != [] {
      var last := |pools| - 1;
      TruncatedValue(shares[..last], pools[..last]);
      assert Truncated(shares[last], pools[last]);
    }
  }

  lemma WholeShare(payout: real, total: real)
    requires total != 0.0
    ensures payout * (total / total) == payout
  {}

  /** Row i of the payout table, pool by pool. */
  ghost function Row(table: PayoutTable, pools: seq<Pool>, m: nat, i: nat): (row: seq<TierPayout>)
    requires Shaped(table, pools, m) && i < m
    ensures |row| == |pools|
  {
    seq(|pools|, k requires 0 <= k < |pools| => assert pools[k] in pools; table[pools[k].name][i])
  }

  /** Whatever WinningChances returns, the pools' USD shares of a tier sum to its payout, and the
      truncated native amounts are worth at most that, short by less than one unit of every pool. */
  lemma TierConserved(o: Chances, mode: TrfMode, atx: real, g: real, m: nat, pools: seq<Pool>, blockTime: real, i: nat)
    requires PoolsDefined(pools) && Distributing(pools, blockTime) && TotalBpy(blockTime, pools) > 0.0
    requires o.Chances? && i < m <= o.n && PayoutDefined(mode, atx, g, TotalBpy(blockTime, pools), m)
    requires Priced(o, mode, atx, g, TotalBpy(blockTime, pools), m, pools, blockTime, m)
    requires Payout(mode, atx, g, TotalBpy(blockTime, pools), m, o.n, i + 1) >= 0.0
    ensures var payout, row := Payout(mode, atx, g, TotalBpy(blockTime, pools), m, o.n, i + 1), Row(o.payouts, pools, m, i);
            Usd(row) == payout && payout - Units(pools) < Value(row, pools) <= payout
  {
    hide Payout, TotalBpy, Usd, Value, Units, Share;
    var total := TotalBpy(blockTime, pools);
    var payout := Payout(mode, atx, g, total, m, o.n, i + 1);
    var shares := Shares(payout, blockTime, total, pools);
    assert TierPriced(o, mode, atx, g, total, m, pools, blockTime, i);
    assert Row(o.payouts, pools, m, i) == shares by {
      forall k | 0 <= k < |pools| ensures IsLast(pools, k) {}
    }
    assert pools != [] by { NoPoolsNoRate(blockTime, pools); }
    UsdOfShares(payout, blockTime, total, pools);
    WholeShare(payout, total);
    forall k | 0 <= k < |pools| ensures Truncated(shares[k], pools[k]) {
      ShareTruncated(payout, blockTime, total, pools[k]);
    }
    TruncatedValue(shares, pools);
  }

  lemma NoPoolsNoRate(blockTime: real, pools: seq<Pool>)
    requires PoolsDefined(pools)
    ensures pools == [] ==> TotalBpy(blockTime, pools) == 0.0
  {}

  // ---- what the pools give, in their own terms

  /** In weight / blockTime blocks a pool gives away exactly what it is worth. */
  lemma PoolRelease(blockTime: real, pool: Pool)
    requires pool.scale != 0.0 && pool.weight != 0.0
    ensures PoolBpy(blockTime, pool) * pool.weight * pool.scale == blockTime * pool.size * pool.rate
    ensures blockTime != 0.0 ==> PoolBpy(blockTime, pool) * (pool.weight / blockTime) == pool.size / pool.scale * pool.rate
  {
    var worth := pool.size / pool.scale * pool.rate;
    WorthInUnits(pool.size, pool.scale, pool.rate);
    ByWeight(blockTime, worth, pool.weight);
    assert PoolBpy(blockTime, pool) * pool.weight * pool.scale == blockTime * worth * pool.scale;
    assert blockTime * worth * pool.scale == blockTime * (worth * pool.scale);
    assert blockTime * pool.size * pool.rate == blockTime * (pool.size * pool.rate);
  }

  lemma WorthInUnits(size: real, scale: real, rate: real)
    requires scale != 0.0
    ensures size / scale * rate * scale == size * rate
  {}

  lemma ByWeight(blockTime: real, worth: real, weight: real)
    requires weight != 0.0
    ensures blockTime * worth / weight * weight == blockTime * worth
    ensures blockTime != 0.0 ==> blockTime * worth / weight * (weight / blockTime) == worth
  {}

  /** The block's part of the pools' worth in USD: of each, what it is worth over its weight in blocks. */
  ghost function BlockWorth(blockTime: real, pools: seq<Pool>): real
    requires Rated(pools)
  {
    if pools == [] then 0.0 else
      var pool := pools[|pools| - 1];
      NonzeroProduct(pool.scale, pool.weight);
      BlockWorth(blockTime, pools[..|pools| - 1]) + blockTime * pool.size * pool.rate / (pool.scale * pool.weight)
  }

  lemma NonzeroProduct(x: real, y: real)
    requires x != 0.0 && y != 0.0
    ensures x * y != 0.0
  {
    Zero(x, y);
  }

  lemma {:induction false} TotalIsBlockWorth(blockTime: real, pools: seq<Pool>)
    requires Rated(pools)
    ensures TotalBpy(blockTime, pools) == BlockWorth(blockTime, pools)
  {
    if pools != [] {
      var pool := pools[|pools| - 1];
      TotalIsBlockWorth(blockTime, pools[..|pools| - 1]);
      PoolRelease(blockTime, pool);
      NonzeroProduct(pool.scale, pool.weight);
      hide PoolBpy;
      SolveFor(PoolBpy(blockTime, pool), pool.weight, pool.scale, blockTime * pool.size * pool.rate);
    }
  }

  lemma SolveFor(x: real, w: real, s: real, y: real)
    requires s * w != 0.0 && x * w * s == y
    ensures x == y / (s * w)
  {
    assert x * w * s == x * (s * w);
    assert x == x * (s * w) / (s * w);
  }

  /** A USD amount that is to a payout as what the pool gives in a block is to a total. */
  ghost predicate InProportion(usd: real, payout: real, total: real, blockTime: real, pool: Pool) {
    usd * total * pool.weight * pool.scale == payout * (blockTime * pool.size * pool.rate)
  }

  /** The whole native units a share's USD amount buys, towards zero. */
  ghost predicate WholeNative(share: TierPayout, pool: Pool) {
    && (share.usd >= 0.0 ==>
         share.native as real * pool.rate <= share.usd * pool.scale < (share.native as real + 1.0) * pool.rate)
    && (share.usd <= 0.0 ==>
         (share.native as real - 1.0) * pool.rate < share.usd * pool.scale <= share.native as real * pool.rate)
  }

  /** Every pool's USD share of a payout is in the proportion of what it gives in a block, and its native
      amount is the whole units that share buys. */
  lemma ShareOfPool(payout: real, blockTime: real, pools: seq<Pool>, k: nat)
    requires PoolsDefined(pools) && BlockWorth(blockTime, pools) != 0.0 && k < |pools|
    requires pools[k].rate > 0.0 && pools[k].scale > 0.0
    ensures TotalBpy(blockTime, pools) == BlockWorth(blockTime, pools)
    ensures var share := Shares(payout, blockTime, TotalBpy(blockTime, pools), pools)[k];
            InProportion(share.usd, payout, BlockWorth(blockTime, pools), blockTime, pools[k]) && WholeNative(share, pools[k])
  {
    TotalIsBlockWorth(blockTime, pools);
    ShareAt(payout, blockTime, TotalBpy(blockTime, pools), pools, k);
  }

  lemma ShareAt(payout: real, blockTime: real, total: real, pools: seq<Pool>, k: nat)
    requires PoolsDefined(pools) && total != 0.0 && k < |pools|
    requires pools[k].rate > 0.0 && pools[k].scale > 0.0
    ensures var share := Shares(payout, blockTime, total, pools)[k];
            InProportion(share.usd, payout, total, blockTime, pools[k]) && WholeNative(share, pools[k])
  {
    var pool := pools[k];
    assert Shares(payout, blockTime, total, pools)[k] == Share(payout, blockTime, total, pool);
    hide *;
    ShareUsd(payout, blockTime, total, pool);
    ShareNative(payout, blockTime, total, pool);
  }

  lemma ShareUsd(payout: real, blockTime: real, total: real, pool: Pool)
    requires pool.scale != 0.0 && pool.weight != 0.0 && pool.rate != 0.0 && total != 0.0
    ensures InProportion(Share(payout, blockTime, total, pool).usd, payout, total, blockTime, pool)
  {
    PoolRelease(blockTime, pool);
    hide PoolBpy, Truncate;
    Proportion(Share(payout, blockTime, total, pool).usd, payout, PoolBpy(blockTime, pool), total, pool.weight, pool.scale,
      blockTime * pool.size * pool.rate);
  }

  lemma ShareNative(payout: real, blockTime: real, total: real, pool: Pool)
    requires pool.scale > 0.0 && pool.weight != 0.0 && pool.rate > 0.0 && total != 0.0
    ensures WholeNative(Share(payout, blockTime, total, pool), pool)
  {
    hide PoolBpy, UsdShare, InNative, WholeNative;
    WholeInNative(UsdShare(payout, PoolBpy(blockTime, pool), total), pool);
  }

  lemma WholeInNative(usd: real, pool: Pool)
    requires pool.scale > 0.0 && pool.rate > 0.0
    ensures InNative(usd, pool).usd == usd && WholeNative(InNative(usd, pool), pool)
  {
    hide Truncate, WholeNative;
    var native := Truncate(usd / pool.rate * pool.scale);
    WholeUnits(usd, native, pool);
    assert InNative(usd, pool) == TierPayout(native, usd);
  }

  lemma Proportion(usd: real, payout: real, bpy: real, total: real, weight: real, scale: real, y: real)
    requires total != 0.0 && usd == payout * (bpy / total) && bpy * weight * scale == y
    ensures usd * total * weight * scale == payout * y
  {
    var q := bpy / total;
    assert q * total == bpy;
    assert usd * total == payout * bpy by { Associate3(payout, q, total); }
    Associate3(payout, bpy, weight);
    Associate3(payout, bpy * weight, scale);
  }

  lemma Associate3(x: real, y: real, z: real)
    ensures x * y * z == x * (y * z)
  {}

  lemma WholeUnits(usd: real, native: int, pool: Pool)
    requires pool.rate > 0.0 && pool.scale > 0.0 && native == Truncate(usd / pool.rate * pool.scale)
    ensures WholeNative(TierPayout(native, usd), pool)
  {
    WholeAmount(usd, native, pool.rate, pool.scale);
  }

  lemma WholeAmount(usd: real, native: int, rate: real, scale: real)
    requires rate > 0.0 && scale > 0.0 && native == Truncate(usd / rate * scale)
    ensures usd >= 0.0 ==> native as real * rate <= usd * scale < (native as real + 1.0) * rate
    ensures usd <= 0.0 ==> (native as real - 1.0) * rate < usd * scale <= native as real * rate
  {
    var x := usd / rate * scale;
    assert x * rate == usd * scale by { assert usd / rate * rate == usd; }
    SameSign(usd, rate, scale);
    Bracket(x, native, rate, usd * scale);
  }

  lemma Bracket(x: real, t: int, rate: real, y: real)
    requires rate > 0.0 && x * rate == y && t == Truncate(x)
    ensures x >= 0.0 ==> t as real * rate <= y < (t as real + 1.0) * rate
    ensures x <= 0.0 ==> (t as real - 1.0) * rate < y <= t as real * rate
  {
    if x >= 0.0 {
      Enclose(t as real, x, t as real + 1.0, rate, y);
    }
    if x <= 0.0 {
      Enclose(-(t as real), -x, -(t as real - 1.0), rate, -y);
    }
  }

  lemma Enclose(lo: real, x: real, hi: real, rate: real, y: real)
    requires rate > 0.0 && x * rate == y && lo <= x < hi
    ensures lo * rate <= y < hi * rate
  {
    InOrder(lo, x, rate);
    InOrder(x, hi, rate);
  }

  lemma InOrder(x: real, y: real, r: real)
    requires r > 0.0
    ensures x < y ==> x * r < y * r
    ensures x <= y ==> x * r <= y * r
  {
    CancelFactor(x, y, r);
  }

  lemma SameSign(usd: real, rate: real, scale: real)
    requires rate > 0.0 && scale > 0.0
    ensures usd >= 0.0 ==> usd / rate * scale >= 0.0
    ensures usd <= 0.0 ==> usd / rate * scale <= 0.0
  {
    assert usd >= 0.0 ==> usd / rate >= 0.0;
    assert usd <= 0.0 ==> usd / rate <= 0.0;
  }

  // ---- what the table of chances pays on average

  /** Over the tiers up to `top`, each tier's probability times the USD in its row. */
  ghost function ExpectedUsd(o: Chances, pools: seq<Pool>, m: nat, top: nat): real
    requires o.Chances? && Shaped(o.payouts, pools, m) && top <= m == |o.probabilities|
  {
    if top == 0 then 0.0 else
      ExpectedUsd(o, pools, m, top - 1) + o.probabilities[top - 1] * Usd(Row(o.payouts, pools, m, top - 1))
  }

  ghost predicate DistinctNames(pools: seq<Pool>) {
    forall j, k :: 0 <= j < k < |pools| ==> pools[j].name != pools[k].name
  }

  lemma RowUsd(o: Chances, mode: TrfMode, atx: real, g: real, m: nat, pools: seq<Pool>, blockTime: real, i: nat)
    requires PoolsDefined(pools) && DistinctNames(pools) && TotalBpy(blockTime, pools) != 0.0
    requires o.Chances? && i < m <= o.n && PayoutDefined(mode, atx, g, TotalBpy(blockTime, pools), m)
    requires Priced(o, mode, atx, g, TotalBpy(blockTime, pools), m, pools, blockTime, m)
    ensures Usd(Row(o.payouts, pools, m, i)) == Payout(mode, atx, g, TotalBpy(blockTime, pools), m, o.n, i + 1)
    ensures o.probabilities[i] == Probability(m, o.n, i + 1)
  {
    hide Payout, TotalBpy, Usd, Share, Probability;
    var total := TotalBpy(blockTime, pools);
    var payout := Payout(mode, atx, g, total, m, o.n, i + 1);
    var shares := Shares(payout, blockTime, total, pools);
    assert TierPriced(o, mode, atx, g, total, m, pools, blockTime, i);
    assert Row(o.payouts, pools, m, i) == shares by {
      forall k | 0 <= k < |pools| ensures IsLast(pools, k) {}
    }
    UsdOfShares(payout, blockTime, total, pools);
    WholeShare(payout, total);
  }

  lemma {:induction false} ExpectedUsdIsReward(o: Chances, mode: TrfMode, atx: real, g: real, m: nat, pools: seq<Pool>, blockTime: real, top: nat)
    requires PoolsDefined(pools) && DistinctNames(pools) && TotalBpy(blockTime, pools) != 0.0
    requires o.Chances? && top <= m <= o.n && PayoutDefined(mode, atx, g, TotalBpy(blockTime, pools), m)
    requires Priced(o, mode, atx, g, TotalBpy(blockTime, pools), m, pools, blockTime, m)
    ensures ExpectedUsd(o, pools, m, top) == Sum(Contributions(mode, atx, g, TotalBpy(blockTime, pools), m, o.n)[..top])
  {
    hide Payout, TotalBpy, Usd, Row, Probability, Priced, DistinctNames;
    var cs := Contributions(mode, atx, g, TotalBpy(blockTime, pools), m, o.n);
    PricedShape(o, mode, atx, g, m, pools, blockTime);
    if top > 0 {
      ExpectedUsdIsReward(o, mode, atx, g, m, pools, blockTime, top - 1);
      RowUsd(o, mode, atx, g, m, pools, blockTime, top - 1);
      assert cs[..top][..top - 1] == cs[..top - 1];
    }
  }

  lemma PricedShape(o: Chances, mode: TrfMode, atx: real, g: real, m: nat, pools: seq<Pool>, blockTime: real)
    requires PoolsDefined(pools) && TotalBpy(blockTime, pools) != 0.0
    requires o.Chances? && m <= o.n && PayoutDefined(mode, atx, g, TotalBpy(blockTime, pools), m)
    requires Priced(o, mode, atx, g, TotalBpy(blockTime, pools), m, pools, blockTime, m)
    ensures Shaped(o.payouts, pools, m) && |o.probabilities| == m
  {}

  /** Whatever WinningChances returns with n >= 2m - 1: on average a transfer wins its part of what the
      pools give in a block, though no more than its gas fee with the optimistic solution. So without that
      solution atx transfers win exactly the block's part. */
  lemma BlockIsPaid(o: Chances, mode: TrfMode, atx: real, g: real, m: nat, pools: seq<Pool>, blockTime: real)
    requires PoolsDefined(pools) && DistinctNames(pools) && BlockWorth(blockTime, pools) != 0.0
    requires o.Chances? && 0 < m <= o.n && o.n >= 2 * m - 1 && atx > 0.0
    ensures TotalBpy(blockTime, pools) == BlockWorth(blockTime, pools)
    ensures PayoutDefined(mode, atx, g, BlockWorth(blockTime, pools), m)
    ensures Priced(o, mode, atx, g, BlockWorth(blockTime, pools), m, pools, blockTime, m) ==>
      var worth := BlockWorth(blockTime, pools);
      && Shaped(o.payouts, pools, m) && |o.probabilities| == m
      && ExpectedUsd(o, pools, m, m) == (if mode.Normal? && g < worth / atx then g else worth / atx)
      && (mode.NoOptimisticSolution? ==> ExpectedUsd(o, pools, m, m) * atx == worth)
  {
    TotalIsBlockWorth(blockTime, pools);
    var worth := BlockWorth(blockTime, pools);
    if Priced(o, mode, atx, g, worth, m, pools, blockTime, m) {
      hide *;
      PricedShape(o, mode, atx, g, m, pools, blockTime);
      ExpectedUsdIsReward(o, mode, atx, g, m, pools, blockTime, m);
      WholeReward(mode, atx, g, worth, m, o.n);
      ByTransfers(worth, atx);
    }
  }

  /** With every tier possible the whole of what there is to give is expected. */
  lemma WholeReward(mode: TrfMode, atx: real, g: real, delta: real, m: nat, n: nat)
    requires 0 < m <= n && n >= 2 * m - 1 && atx > 0.0
    ensures PayoutDefined(mode, atx, g, delta, m)
    ensures Sum(Contributions(mode, atx, g, delta, m, n)[..m]) == if mode.Normal? && g < delta / atx then g else delta / atx
  {
    hide Allowance, Contributions, PossibleTiers, Bound;
    var cs := Contributions(mode, atx, g, delta, m, n);
    assert cs[..m] == cs;
    RewardIsTiersTimesAllowance(mode, atx, g, delta, m, n);
    AllTiersPossible(m, n, m);
    AllowanceShares(mode, atx, g, delta, m);
    BoundIsLesser(mode, atx, g, delta);
  }

  lemma ByTransfers(worth: real, atx: real)
    requires atx > 0.0
    ensures worth / atx * atx == worth
  {}
}
