/** From the table of chances to the wins paid: a draw from the table's count of balls is paid the amounts
    of the tier it matched (cmd/microservice-ethereum-worker-server/main.go). */
module Lottery {
  import opened Draws
  import opened Rewards
  import opened Payouts
  import Wins

  function Natives(rows: seq<TierPayout>): (natives: seq<int>)
    ensures |natives| == |rows| && forall i :: 0 <= i < |rows| ==> natives[i] == rows[i].native
  {
    seq(|rows|, i requires 0 <= i < |rows| => rows[i].native)
  }

  /** The amounts the table's prizes are announced with. */
  function Announced(table: PayoutTable): (payouts: map<Wins.Utility, seq<int>>)
    ensures payouts.Keys == table.Keys && forall u :: u in table ==> payouts[u] == Natives(table[u])
  {
    map u | u in table :: Natives(table[u])
  }

  /** A draw never matches a tier that the table holds to be impossible. */
  lemma DrawnTierIsPossible(draw: Draw, n: nat, m: nat)
    requires m <= n && draw in All(n, m)
    ensures |draw| == m && m - Matches(draw, m) <= n - m
    ensures Probability(m, n, Matches(draw, m)) > 0.0
  {
    AllIsEveryDraw(n, m, draw);
    FreshAbove(draw, n, m);
    ProbabilityZero(m, n, Matches(draw, m));
  }

  /** The share is pool's part of the price of tier b: an m-th of what there is to give in a transfer over
      the chance of the tier, shared in proportion to what the pools give in a block. */
  ghost predicate IsTierShare(share: TierPayout, mode: TrfMode, atx: real, g: real, worth: real, m: nat, n: nat, b: nat,
                              blockTime: real, pool: Pool)
    requires atx > 0.0 && b <= m <= n
  {
    && WholeNative(share, pool)
    && exists payout: real :: InProportion(share.usd, payout, worth, blockTime, pool)
         && m as real * (Probability(m, n, b) * payout) == if mode.Normal? && g < worth / atx then g else worth / atx
  }

  /** A transfer announced with the table's amounts and a draw from its count of balls, b of them matching,
      is paid tier b: in each pool's token its sides get together the pool's share of the price of the tier. */
  lemma WinIsTierPrice(a: Wins.Announcement, o: Chances, mode: TrfMode, atx: real, g: real, m: nat, pools: seq<Pool>,
                       blockTime: real, k: nat)
    requires PoolsDefined(pools) && DistinctNames(pools) && BlockWorth(blockTime, pools) != 0.0
    requires k < |pools| && pools[k].rate > 0.0 && pools[k].scale > 0.0
    requires o.Chances? && 0 < m <= o.n && atx > 0.0
    requires PayoutDefined(mode, atx, g, BlockWorth(blockTime, pools), m)
    requires Priced(o, mode, atx, g, BlockWorth(blockTime, pools), m, pools, blockTime, m)
    requires a.random in All(o.n, m) && a.payouts == Announced(o.payouts)
    requires a.from != Wins.NULL_ADDRESS && a.to != Wins.NULL_ADDRESS
    ensures var b, name := Matches(a.random, m), pools[k].name;
      b > 0 ==>
        && !Wins.TooShort(a)
        && name in o.payouts && b <= |o.payouts[name]|
        && IsTierShare(o.payouts[name][b - 1], mode, atx, g, BlockWorth(blockTime, pools), m, o.n, b, blockTime, pools[k])
        && Wins.Get(Wins.FromTotals([a], a.id), name) + Wins.Get(Wins.ToTotals([a], a.id), name)
           == o.payouts[name][b - 1].native
  {
    hide *;
    var b, name := Matches(a.random, m), pools[k].name;
    DrawnTierIsPossible(a.random, o.n, m);
    if b > 0 {
      TableRow(o, mode, atx, g, m, pools, blockTime, k, b);
      PaidFromTable(a, o.payouts, m, name);
    }
  }

  lemma PaidFromTable(a: Wins.Announcement, table: PayoutTable, m: nat, name: string)
    requires a.payouts == Announced(table) && |a.random| == m && name in table
    requires a.from != Wins.NULL_ADDRESS && a.to != Wins.NULL_ADDRESS && Matches(a.random, m) > 0
    requires forall u :: u in table ==> |table[u]| == m
    ensures !Wins.TooShort(a)
    ensures Wins.Get(Wins.FromTotals([a], a.id), name) + Wins.Get(Wins.ToTotals([a], a.id), name)
         == table[name][Matches(a.random, m) - 1].native
  {
    assert !Wins.TooShort(a);
    hide *;
    Wins.WinsConserved([a], a.id, name);
    Wins.PrizeOfOne(a, a.id, name);
  }

  lemma TableRow(o: Chances, mode: TrfMode, atx: real, g: real, m: nat, pools: seq<Pool>, blockTime: real, k: nat, b: nat)
    requires PoolsDefined(pools) && DistinctNames(pools) && BlockWorth(blockTime, pools) != 0.0
    requires k < |pools| && pools[k].rate > 0.0 && pools[k].scale > 0.0
    requires o.Chances? && 0 < b <= m <= o.n && m - b <= o.n - m && atx > 0.0
    requires PayoutDefined(mode, atx, g, BlockWorth(blockTime, pools), m)
    requires Priced(o, mode, atx, g, BlockWorth(blockTime, pools), m, pools, blockTime, m)
    ensures forall u :: u in o.payouts ==> |o.payouts[u]| == m
    ensures pools[k].name in o.payouts
    ensures IsTierShare(o.payouts[pools[k].name][b - 1], mode, atx, g, BlockWorth(blockTime, pools), m, o.n, b, blockTime, pools[k])
  {
    hide Payout, TotalBpy, BlockWorth, Share, Probability, InProportion, WholeNative, PayoutDefined;
    var worth := BlockWorth(blockTime, pools);
    TotalIsBlockWorth(blockTime, pools);
    var payout := Payout(mode, atx, g, worth, m, o.n, b);
    assert TierPriced(o, mode, atx, g, worth, m, pools, blockTime, b - 1);
    assert IsLast(pools, k);
    TierPrice(mode, atx, g, worth, m, o.n, b);
    ShareOfPool(payout, blockTime, pools, k);
  }
}
