/** Winning announcements: the prize of each is split between sender and receiver, and the wins of one
    transfer are merged (common/calculation/probability/payouts.go,
    cmd/microservice-ethereum-worker-client/main.go). Native amounts only. */
module Wins {
  import opened Draws
  import Rewards
  import opened Options

  type Utility = string

  datatype Id = Id(hash: string, logIndex: nat)

  datatype Announcement = Announcement(id: Id, block: nat, from: string, to: string,
    random: Draw, payouts: map<Utility, seq<int>>, token: string, decorator: string)

  const NULL_ADDRESS := "0000000000000000000000000000000000000000"

  // ---- splitting one prize

  /** big.Int division is Euclidean, as Dafny's. */
  function ToShare(prize: int): int {
    prize / 5
  }

  function FromShare(prize: int): int {
    prize - ToShare(prize)
  }

  predicate Covers(tiers: seq<int>, balls: int) {
    1 <= balls <= |tiers|
  }

  function Tier(tiers: seq<int>, balls: int): int {
    if Covers(tiers, balls) then tiers[balls - 1] else 0
  }

  function FromShares(source: map<Utility, seq<int>>, balls: int): map<Utility, int> {
    map u | u in source :: FromShare(Tier(source[u], balls))
  }

  function ToShares(source: map<Utility, seq<int>>, balls: int): map<Utility, int> {
    map u | u in source :: ToShare(Tier(source[u], balls))
  }

  predicate AllCover(source: map<Utility, seq<int>>, balls: int) {
    forall u :: u in source ==> Covers(source[u], balls)
  }

  lemma SharesAre(source: map<Utility, seq<int>>, balls: int, from: map<Utility, int>, to: map<Utility, int>)
    requires from.Keys == to.Keys == source.Keys
    requires forall u :: u in source ==> from[u] == FromShare(Tier(source[u], balls)) && to[u] == ToShare(Tier(source[u], balls))
    ensures from == FromShares(source, balls) && to == ToShares(source, balls)
  {}

  /** None when a tier list is too short for the balls, an index out of range. Otherwise the two shares of a
      prize add up to it, and the receiver's is its fifth, rounded down. */
  method CalculatePayoutsSplit(source: map<Utility, seq<int>>, balls: int)
    returns (r: Option<(map<Utility, int>, map<Utility, int>)>)
    ensures r.Some? <==> forall u :: u in source ==> 1 <= balls <= |source[u]|
    ensures r.Some? ==>
      && r.value.0.Keys == r.value.1.Keys == source.Keys
      && forall u :: u in source ==>
           && r.value.0[u] + r.value.1[u] == source[u][balls - 1]
           && 5 * r.value.1[u] <= source[u][balls - 1] <= 5 * r.value.1[u] + 4
    ensures r.Some? ==> r.value.0 == FromShares(source, balls) && r.value.1 == ToShares(source, balls)
  {
    hide ToShares, FromShares;
    var fromAmounts: map<Utility, int>, toAmounts: map<Utility, int> := map[], map[];
    var left := source.Keys;
    while left != {}
      invariant left <= source.Keys
      invariant fromAmounts.Keys == toAmounts.Keys == source.Keys - left
      invariant forall u :: u in fromAmounts ==> Covers(source[u], balls)
      invariant forall u :: u in fromAmounts ==> fromAmounts[u] == FromShare(Tier(source[u], balls))
      invariant forall u :: u in toAmounts ==> toAmounts[u] == ToShare(Tier(source[u], balls))
      decreases |left|
    {
      var utility :| utility in left;
      left := left - {utility};
      if !(1 <= balls <= |source[utility]|) {
        return None;
      }
      var prize := source[utility][balls - 1];
      var to := prize / 5;
      toAmounts := toAmounts[utility := to];
      fromAmounts := fromAmounts[utility := prize - to];
    }
    SharesAre(source, balls, fromAmounts, toAmounts);
    return Some((fromAmounts, toAmounts));
  }

  method CalculatePayoutsCombined(source: map<Utility, seq<int>>, balls: int) returns (r: Option<map<Utility, int>>)
    ensures r.Some? <==> forall u :: u in source ==> 1 <= balls <= |source[u]|
    ensures r.Some? ==> r.value.Keys == source.Keys && forall u :: u in source ==> r.value[u] == source[u][balls - 1]
  {
    var payouts: map<Utility, int> := map[];
    var left := source.Keys;
    while left != {}
      invariant left <= source.Keys && payouts.Keys == source.Keys - left
      invariant forall u :: u in payouts ==> 1 <= balls <= |source[u]| && payouts[u] == source[u][balls - 1]
      decreases |left|
    {
      var utility :| utility in left;
      left := left - {utility};
      if !(1 <= balls <= |source[utility]|) {
        return None;
      }
      payouts := payouts[utility := source[utility][balls - 1]];
    }
    return Some(payouts);
  }

  // ---- merging

  function Get(m: map<Utility, int>, u: Utility): int {
    if u in m then m[u] else 0
  }

  function Merged(dest: map<Utility, int>, source: map<Utility, int>): map<Utility, int> {
    map u | u in dest.Keys + source.Keys :: Get(dest, u) + Get(source, u)
  }

  /** Merging the two shares gives the combined payouts. */
  lemma CombinedIsBoth(source: map<Utility, seq<int>>, balls: int)
    requires forall u :: u in source ==> 1 <= balls <= |source[u]|
    ensures Merged(FromShares(source, balls), ToShares(source, balls)) == map u | u in source :: source[u][balls - 1]
  {}

  /** A map of amounts that its holders share. */
  class Amounts {
    var native: map<Utility, int>

    constructor ()
      ensures native == map[]
    {
      native := map[];
    }
  }

  /** m is dest with what source holds for all but the utilities left. */
  ghost predicate MergedBut(m: map<Utility, int>, dest: map<Utility, int>, source: map<Utility, int>, left: set<Utility>) {
    && m.Keys == dest.Keys + (source.Keys - left)
    && (forall u :: u in m ==> m[u] == Get(dest, u) + if u in left then 0 else Get(source, u))
  }

  lemma MergeOne(m: map<Utility, int>, dest: map<Utility, int>, source: map<Utility, int>, left: set<Utility>, u: Utility)
    requires MergedBut(m, dest, source, left) && u in left && left <= source.Keys
    ensures MergedBut(m[u := source[u] + Get(m, u)], dest, source, left - {u})
  {}

  lemma MergeEnds(m: map<Utility, int>, dest: map<Utility, int>, source: map<Utility, int>)
    ensures MergedBut(dest, dest, source, source.Keys)
    ensures MergedBut(m, dest, source, {}) ==> m == Merged(dest, source)
  {}

  method MergePayouts(source: map<Utility, int>, dest: Amounts)
    modifies dest
    ensures dest.native == Merged(old(dest.native), source)
  {
    hide MergedBut, Merged;
    ghost var was := dest.native;
    MergeEnds(was, was, source);
    var left := source.Keys;
    while left != {}
      invariant left <= source.Keys && MergedBut(dest.native, was, source, left)
      decreases |left|
    {
      var app :| app in left;
      var destPayout := source[app];
      if app in dest.native {
        destPayout := source[app] + dest.native[app];
      }
      MergeOne(dest.native, was, source, left, app);
      dest.native := dest.native[app := destPayout];
      left := left - {app};
    }
    MergeEnds(dest.native, was, source);
  }

  // ---- what a list of announcements wins

  function Balls(a: Announcement): nat {
    Matches(a.random, |a.random|)
  }

  /** The balls a transfer matched, none if it mints or burns. */
  function Matched(a: Announcement): (b: nat)
    ensures a.from != NULL_ADDRESS && a.to != NULL_ADDRESS ==> b == Matches(a.random, |a.random|)
    ensures a.from == NULL_ADDRESS || a.to == NULL_ADDRESS ==> b == 0
  {
    if Winning(a) then Balls(a) else 0
  }

  /** Some list of prizes has none for the balls matched. */
  predicate TooShort(a: Announcement) {
    exists u :: u in a.payouts && |a.payouts[u]| < Matched(a)
  }

  predicate Winning(a: Announcement) {
    a.from != NULL_ADDRESS && a.to != NULL_ADDRESS && Balls(a) > 0
  }

  predicate WinsFor(a: Announcement, id: Id) {
    Winning(a) && a.id == id
  }

  function FromTotals(announcements: seq<Announcement>, id: Id): map<Utility, int> {
    if announcements == [] then map[] else
      var before, a := announcements[..|announcements| - 1], announcements[|announcements| - 1];
      if WinsFor(a, id) then Merged(FromTotals(before, id), FromShares(a.payouts, Balls(a)))
      else FromTotals(before, id)
  }

  function ToTotals(announcements: seq<Announcement>, id: Id): map<Utility, int> {
    if announcements == [] then map[] else
      var before, a := announcements[..|announcements| - 1], announcements[|announcements| - 1];
      if WinsFor(a, id) then Merged(ToTotals(before, id), ToShares(a.payouts, Balls(a)))
      else ToTotals(before, id)
  }

  function First(announcements: seq<Announcement>, id: Id): Option<Announcement> {
    if announcements == [] then None else
      var before, a := First(announcements[..|announcements| - 1], id), announcements[|announcements| - 1];
      if before.None? && WinsFor(a, id) then Some(a) else before
  }

  /** The matched prizes in one utility of all the winning announcements of one transfer. */
  function PrizeTotal(announcements: seq<Announcement>, id: Id, u: Utility): int {
    if announcements == [] then 0 else
      var a := announcements[|announcements| - 1];
      PrizeTotal(announcements[..|announcements| - 1], id, u)
      + if WinsFor(a, id) && u in a.payouts && Balls(a) <= |a.payouts[u]| then a.payouts[u][Balls(a) - 1] else 0
  }

  /** The total is the sum over the announcements, and of one it is the entry of its utility's list for the
      balls it matched, if neither side is the null address. */
  lemma {:induction false} PrizeTotalAdds(some: seq<Announcement>, more: seq<Announcement>, id: Id, u: Utility)
    ensures PrizeTotal(some + more, id, u) == PrizeTotal(some, id, u) + PrizeTotal(more, id, u)
  {
    if more == [] {
      assert some + more == some;
    } else {
      PrizeTotalAdds(some, more[..|more| - 1], id, u);
      assert (some + more)[..|some + more| - 1] == some + more[..|more| - 1];
    }
  }

  lemma PrizeOfOne(a: Announcement, id: Id, u: Utility)
    ensures var b := Matches(a.random, |a.random|);
            PrizeTotal([a], id, u) ==
              if a.id == id && a.from != NULL_ADDRESS && a.to != NULL_ADDRESS && u in a.payouts && 0 < b <= |a.payouts[u]|
              then a.payouts[u][b - 1] else 0
  {}

  function WinCount(announcements: seq<Announcement>, id: Id): nat {
    if announcements == [] then 0 else
      WinCount(announcements[..|announcements| - 1], id)
      + if WinsFor(announcements[|announcements| - 1], id) then 1 else 0
  }

  predicate WonIn(announcements: seq<Announcement>, id: Id, u: Utility) {
    exists a :: a in announcements && WinsFor(a, id) && u in a.payouts
  }

  /** Nothing is lost or made in splitting and merging: what sender and receiver get in a utility adds
      up to the prizes matched in it, and the sender gets at least four times what the receiver does,
      over by less than five units a win. */
  lemma {:induction false} WinsConserved(announcements: seq<Announcement>, id: Id, u: Utility)
    ensures FromTotals(announcements, id).Keys == ToTotals(announcements, id).Keys
    ensures u in FromTotals(announcements, id) <==> WonIn(announcements, id, u)
    ensures var from, to := Get(FromTotals(announcements, id), u), Get(ToTotals(announcements, id), u);
            && from + to == PrizeTotal(announcements, id, u)
            && 4 * to <= from <= 4 * to + 4 * WinCount(announcements, id)
  {
    if announcements != [] {
      var before, a := announcements[..|announcements| - 1], announcements[|announcements| - 1];
      assert announcements == before + [a];
      assert WonIn(announcements, id, u) <==> WonIn(before, id, u) || (WinsFor(a, id) && u in a.payouts);
      WinsConserved(before, id, u);
    }
  }

  // ---- merging a message's announcements

  datatype Winner = Winner(network: string, id: Id, block: nat, from: string, fromWin: Amounts,
    to: string, toWin: Amounts, token: string, decorator: string, tier: nat)

  /** Crashed: an index out of range took the process down. */
  datatype Outcome = Crashed | Nothing | Sent(winners: seq<Winner>)

  /** w holds the whole winnings of its transfer, and the particulars of its first win. */
  ghost predicate IsAward(w: Winner, network: string, announcements: seq<Announcement>)
    reads w.fromWin, w.toWin
  {
    && w.fromWin.native == FromTotals(announcements, w.id)
    && w.toWin.native == ToTotals(announcements, w.id)
    && Describes(w, network, First(announcements, w.id))
  }

  predicate Describes(w: Winner, network: string, first: Option<Announcement>) {
    && w.network == network && first.Some?
    && var a := first.value;
    && w.block == a.block && w.from == a.from && w.to == a.to && w.tier == Balls(a)
    && w.token == a.token && w.decorator == a.decorator
  }

  function Ledgers(winners: map<Id, Winner>): set<object> {
    (set id | id in winners :: winners[id].fromWin as object) + (set id | id in winners :: winners[id].toWin as object)
  }

  ghost predicate Settled(winners: map<Id, Winner>, network: string, announcements: seq<Announcement>)
    reads Ledgers(winners)
  {
    && (forall id :: id in winners <==> First(announcements, id).Some?)
    && (forall id :: id in winners ==> winners[id].id == id && IsAward(winners[id], network, announcements))
  }

  /** No two amounts maps are one object. */
  ghost predicate Apart(winners: map<Id, Winner>) {
    && (forall i, j :: i in winners && j in winners ==> winners[i].fromWin != winners[j].toWin)
    && (forall i, j :: i in winners && j in winners && i != j ==>
      winners[i].fromWin != winners[j].fromWin && winners[i].toWin != winners[j].toWin)
  }

  lemma Step(announcements: seq<Announcement>, a: Announcement, id: Id)
    ensures FromTotals(announcements + [a], id) ==
      if WinsFor(a, id) then Merged(FromTotals(announcements, id), FromShares(a.payouts, Balls(a)))
      else FromTotals(announcements, id)
    ensures ToTotals(announcements + [a], id) ==
      if WinsFor(a, id) then Merged(ToTotals(announcements, id), ToShares(a.payouts, Balls(a)))
      else ToTotals(announcements, id)
    ensures First(announcements + [a], id) ==
      if First(announcements, id).None? && WinsFor(a, id) then Some(a) else First(announcements, id)
  {
    assert (announcements + [a])[..|announcements|] == announcements;
  }

  lemma {:induction false} NothingYet(announcements: seq<Announcement>, id: Id)
    ensures First(announcements, id).Some? <==> exists a :: a in announcements && WinsFor(a, id)
    ensures First(announcements, id).None? ==>
      FromTotals(announcements, id) == map[] && ToTotals(announcements, id) == map[]
  {
    if announcements != [] {
      var before, a := announcements[..|announcements| - 1], announcements[|announcements| - 1];
      assert announcements == before + [a];
      NothingYet(before, id);
    }
  }

  /** It is the first of the announcements that win for the transfer. */
  lemma {:induction false} FirstIsEarliest(announcements: seq<Announcement>, id: Id)
    ensures First(announcements, id).Some? ==>
      exists i :: 0 <= i < |announcements| && announcements[i] == First(announcements, id).value
        && announcements[i].id == id && Matched(announcements[i]) > 0
        && forall j :: 0 <= j < i ==> announcements[j].id != id || Matched(announcements[j]) == 0
  {
    if announcements != [] {
      var last := |announcements| - 1;
      var before := announcements[..last];
      FirstIsEarliest(before, id);
      if First(before, id).Some? {
        var i :| 0 <= i < last && before[i] == First(before, id).value && before[i].id == id && Matched(before[i]) > 0
          && forall j :: 0 <= j < i ==> before[j].id != id || Matched(before[j]) == 0;
        forall j | 0 <= j < i ensures announcements[j].id != id || Matched(announcements[j]) == 0 {
          assert announcements[j] == before[j];
        }
        assert announcements[i] == before[i];
      } else if WinsFor(announcements[last], id) {
        NothingYet(before, id);
        forall j | 0 <= j < last ensures announcements[j].id != id || Matched(announcements[j]) == 0 {
          assert announcements[j] == before[j] && before[j] in before;
        }
        assert announcements[last].id == id;
      }
    }
  }

  lemma SkipLoser(winners: map<Id, Winner>, network: string, announcements: seq<Announcement>, a: Announcement)
    requires Settled(winners, network, announcements) && !Winning(a)
    ensures Settled(winners, network, announcements + [a])
  {
    forall id
      ensures First(announcements + [a], id) == First(announcements, id)
      ensures FromTotals(announcements + [a], id) == FromTotals(announcements, id)
      ensures ToTotals(announcements + [a], id) == ToTotals(announcements, id)
    {
      Step(announcements, a, id);
    }
  }

  lemma Settle(winners: map<Id, Winner>, network: string, done: seq<Announcement>, a: Announcement)
    requires forall id :: id in winners <==> id == a.id || First(done, id).Some?
    requires forall id :: id in winners && id != a.id ==> winners[id].id == id && IsAward(winners[id], network, done)
    requires Winning(a) && winners[a.id].id == a.id
    requires winners[a.id].fromWin.native == Merged(FromTotals(done, a.id), FromShares(a.payouts, Balls(a)))
    requires winners[a.id].toWin.native == Merged(ToTotals(done, a.id), ToShares(a.payouts, Balls(a)))
    requires Describes(winners[a.id], network, if First(done, a.id).Some? then First(done, a.id) else Some(a))
    ensures Settled(winners, network, done + [a])
  {
    hide FromTotals, ToTotals, First, FromShares, ToShares, Merged, Describes, Winning, Balls;
    forall id | id != a.id
      ensures First(done + [a], id) == First(done, id)
      ensures FromTotals(done + [a], id) == FromTotals(done, id)
      ensures ToTotals(done + [a], id) == ToTotals(done, id)
    {
      Step(done, a, id);
    }
    Step(done, a, a.id);
  }

  /** The winner already noted for a's transfer, or a new one with nothing won. */
  method Entry(winners: map<Id, Winner>, network: string, a: Announcement, balls: nat) returns (w: Winner)
    requires balls == Balls(a)
    ensures a.id !in winners ==> w.id == a.id
    ensures a.id in winners ==> w == winners[a.id]
    ensures a.id !in winners ==>
      && fresh(w.fromWin) && fresh(w.toWin) && w.fromWin != w.toWin
      && w.fromWin as object !in Ledgers(winners) && w.toWin as object !in Ledgers(winners)
      && w.fromWin.native == map[] == w.toWin.native && Describes(w, network, Some(a))
  {
    if a.id in winners {
      return winners[a.id];
    }
    var fromWin := new Amounts();
    var toWin := new Amounts();
    return Winner(network, a.id, a.block, a.from, fromWin, a.to, toWin, a.token, a.decorator, balls);
  }

  method MergeWins(source: (map<Utility, int>, map<Utility, int>), w: Winner)
    requires w.fromWin != w.toWin
    modifies w.fromWin, w.toWin
    ensures w.fromWin.native == Merged(old(w.fromWin.native), source.0)
    ensures w.toWin.native == Merged(old(w.toWin.native), source.1)
  {
    MergePayouts(source.0, w.fromWin);
    MergePayouts(source.1, w.toWin);
  }

  lemma ApartAfter(winners: map<Id, Winner>, id: Id, w: Winner)
    requires Apart(winners) && w.fromWin != w.toWin
    requires id in winners ==> w == winners[id]
    requires id !in winners ==> w.fromWin as object !in Ledgers(winners) && w.toWin as object !in Ledgers(winners)
    ensures Apart(winners[id := w])
    ensures Ledgers(winners[id := w]) <= Ledgers(winners) + {w.fromWin, w.toWin}
    ensures forall i :: i in winners && i != id ==>
      && winners[i].fromWin != w.fromWin && winners[i].fromWin != w.toWin
      && winners[i].toWin != w.fromWin && winners[i].toWin != w.toWin
  {
    if id !in winners {
      forall i | i in winners
        ensures winners[i].fromWin as object in Ledgers(winners) && winners[i].toWin as object in Ledgers(winners)
      {}
    }
  }

  /** Merges one winning announcement into the winners so far. */
  method Award(winners0: map<Id, Winner>, network: string, a: Announcement, winningBalls: nat, ghost done: seq<Announcement>)
    returns (ok: bool, winners: map<Id, Winner>)
    requires Settled(winners0, network, done) && Apart(winners0)
    requires Winning(a) && winningBalls == Balls(a)
    modifies Ledgers(winners0)
    ensures ok <==> AllCover(a.payouts, Balls(a))
    ensures ok ==> Settled(winners, network, done + [a]) && Apart(winners)
    ensures ok ==> fresh(Ledgers(winners) - Ledgers(winners0))
  {
    hide FromTotals, ToTotals, First, FromShares, ToShares, Merged, Describes, Winning, Balls, Apart, Ledgers;
    winners := winners0;
    var split := CalculatePayoutsSplit(a.payouts, winningBalls);
    if split.None? {
      return false, winners;
    }
    NothingYet(done, a.id);
    ApartAt(winners0, a.id);
    var w := Entry(winners, network, a, winningBalls);
    ApartAfter(winners0, a.id, w);
    MergeWins(split.value, w);
    winners := winners[a.id := w];
    forall id | id in winners && id != a.id ensures winners[id].id == id && IsAward(winners[id], network, done) {
      assert id in winners0 && winners[id] == winners0[id];
    }
    Settle(winners, network, done, a);
    ok := true;
  }

  lemma ApartAt(winners: map<Id, Winner>, id: Id)
    requires Apart(winners)
    ensures id in winners ==>
      && winners[id].fromWin != winners[id].toWin
      && winners[id].fromWin as object in Ledgers(winners) && winners[id].toWin as object in Ledgers(winners)
  {}

  lemma ShortIsUncovered(a: Announcement)
    ensures Matched(a) > 0 <==> Winning(a)
    ensures Winning(a) ==> (TooShort(a) <==> !AllCover(a.payouts, Balls(a)))
  {}

  method ProcessAnnouncements(announcements: seq<Announcement>, network: string) returns (outcome: Outcome)
    ensures outcome.Crashed? <==> exists a :: a in announcements && Matched(a) > 0 && TooShort(a)
    ensures outcome.Nothing? <==> forall a :: a in announcements ==> Matched(a) == 0
    ensures outcome.Sent? ==>
      && (forall i, j :: 0 <= i < j < |outcome.winners| ==> outcome.winners[i].id != outcome.winners[j].id)
      && (forall a :: a in announcements && Matched(a) > 0 ==> exists w :: w in outcome.winners && w.id == a.id)
      && (forall w :: w in outcome.winners ==> IsAward(w, network, announcements))
  {
    var winners: map<Id, Winner> := map[];
    for i := 0 to |announcements|
      invariant Settled(winners, network, announcements[..i]) && Apart(winners)
      invariant fresh(Ledgers(winners))
      invariant forall a :: a in announcements[..i] ==> Matched(a) == 0 || !TooShort(a)
    {
      hide Settled, Apart, AllCover, Ledgers, TooShort, Matched;
      var a := announcements[i];
      ShortIsUncovered(a);
      assert announcements[..i + 1] == announcements[..i] + [a];
      if a.from == NULL_ADDRESS {
        SkipLoser(winners, network, announcements[..i], a);
        continue;
      }
      if a.to == NULL_ADDRESS {
        SkipLoser(winners, network, announcements[..i], a);
        continue;
      }
      var winningBalls := Rewards.NaiveIsWinning(a.random);
      if winningBalls == 0 {
        SkipLoser(winners, network, announcements[..i], a);
        continue;
      }
      var ok;
      ok, winners := Award(winners, network, a, winningBalls, announcements[..i]);
      if !ok {
        return Crashed;
      }
    }
    assert announcements[..|announcements|] == announcements;
    outcome := Announce(winners, network, announcements);
  }

  method Announce(winners: map<Id, Winner>, network: string, ghost announcements: seq<Announcement>) returns (outcome: Outcome)
    requires Settled(winners, network, announcements)
    ensures !outcome.Crashed?
    ensures outcome.Nothing? <==> forall a :: a in announcements ==> !Winning(a)
    ensures outcome.Sent? ==>
      && (forall i, j :: 0 <= i < j < |outcome.winners| ==> outcome.winners[i].id != outcome.winners[j].id)
      && (forall a :: a in announcements && Winning(a) ==> exists w :: w in outcome.winners && w.id == a.id)
      && (forall w :: w in outcome.winners ==> IsAward(w, network, announcements))
  {
    hide IsAward, First, Winning;
    forall a | a in announcements && Winning(a) ensures a.id in winners {
      NothingYet(announcements, a.id);
      assert WinsFor(a, a.id);
    }
    if |winners| == 0 {
      return Nothing;
    }
    var id :| id in winners;
    NothingYet(announcements, id);
    var list := Listed(winners);
    return Sent(list);
  }

  /** The winners in some order, once each. */
  method Listed(winners: map<Id, Winner>) returns (list: seq<Winner>)
    requires forall id :: id in winners ==> winners[id].id == id
    ensures forall w :: w in list ==> w.id in winners && w == winners[w.id]
    ensures forall id :: id in winners ==> winners[id] in list
    ensures forall i, j :: 0 <= i < j < |list| ==> list[i].id != list[j].id
  {
    list := [];
    var left := winners.Keys;
    while left != {}
      invariant left <= winners.Keys
      invariant forall w :: w in list ==> w.id in winners.Keys - left && w == winners[w.id]
      invariant forall i, j :: 0 <= i < j < |list| ==> list[i].id != list[j].id
      invariant forall id :: id in winners && id !in left ==> winners[id] in list
      decreases |left|
    {
      var id :| id in left;
      left := left - {id};
      list := list + [winners[id]];
    }
  }
}
