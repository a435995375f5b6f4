/** Batching winnings by utility and user (common/ethereum/spooler/batch.go). */
module Batching {
  datatype Reward = Reward(winner: string, amount: int, utility: string, block: int, category: string)

  /** Panicked: there was no first reward to index. */
  datatype Batch = Panicked | Mismatch
    | Batched(first: int, last: int, rewards: map<string, map<string, int>>)

  datatype Pair = Pair(utility: string, user: string)

  /** What one user won in one utility. */
  function Won(winnings: seq<Reward>, p: Pair): int {
    if winnings == [] then 0 else
      var r := winnings[|winnings| - 1];
      Won(winnings[..|winnings| - 1], p) + if r.utility == p.utility && r.winner == p.user then r.amount else 0
  }

  /** It is the sum over the winnings, and of one it is the amount when utility and winner are those asked. */
  lemma {:induction false} WonAdds(some: seq<Reward>, more: seq<Reward>, p: Pair)
    ensures Won(some + more, p) == Won(some, p) + Won(more, p)
  {
    if more == [] {
      assert some + more == some;
    } else {
      WonAdds(some, more[..|more| - 1], p);
      assert (some + more)[..|some + more| - 1] == some + more[..|more| - 1];
    }
  }

  lemma WonOfOne(r: Reward, p: Pair)
    ensures Won([r], p) == if r.utility == p.utility && r.winner == p.user then r.amount else 0
  {
    assert Won([], p) == 0;
  }

  function Total(winnings: seq<Reward>): int {
    if winnings == [] then 0 else Total(winnings[..|winnings| - 1]) + winnings[|winnings| - 1].amount
  }

  predicate Holds(rewards: map<string, map<string, int>>, p: Pair) {
    p.utility in rewards && p.user in rewards[p.utility]
  }

  /** The batch has one entry for each user and utility that won, holding all that was won there. */
  ghost predicate Exact(rewards: map<string, map<string, int>>, winnings: seq<Reward>) {
    forall p: Pair ::
      && (Holds(rewards, p) <==> exists r :: r in winnings && r.utility == p.utility && r.winner == p.user)
      && (Holds(rewards, p) ==> rewards[p.utility][p.user] == Won(winnings, p))
  }

  predicate IsRange(first: int, last: int, winnings: seq<Reward>) {
    && (forall r :: r in winnings ==> first <= r.block <= last)
    && (exists r :: r in winnings && r.block == first)
    && (exists r :: r in winnings && r.block == last)
  }

  predicate AllOf(winnings: seq<Reward>, category: string) {
    forall r :: r in winnings ==> r.category == category
  }

  function Added(rewards: map<string, map<string, int>>, r: Reward): map<string, map<string, int>> {
    var users := if r.utility in rewards then rewards[r.utility] else map[];
    rewards[r.utility := users[r.winner := (if r.winner in users then users[r.winner] else 0) + r.amount]]
  }

  lemma {:induction false} NotWon(winnings: seq<Reward>, p: Pair)
    ensures (forall r :: r in winnings ==> r.utility != p.utility || r.winner != p.user) ==> Won(winnings, p) == 0
  {
    if winnings != [] {
      assert winnings == winnings[..|winnings| - 1] + [winnings[|winnings| - 1]];
      NotWon(winnings[..|winnings| - 1], p);
    }
  }

  lemma WonStep(before: seq<Reward>, r: Reward, p: Pair)
    ensures Won(before + [r], p) == Won(before, p) + if r.utility == p.utility && r.winner == p.user then r.amount else 0
  {
    assert (before + [r])[..|before|] == before;
  }

  lemma AddedIsExact(rewards: map<string, map<string, int>>, before: seq<Reward>, r: Reward)
    requires Exact(rewards, before)
    ensures Exact(Added(rewards, r), before + [r])
  {
    hide Won;
    var after, winnings := Added(rewards, r), before + [r];
    forall p: Pair
      ensures Holds(after, p) <==> exists q :: q in winnings && q.utility == p.utility && q.winner == p.user
      ensures Holds(after, p) ==> after[p.utility][p.user] == Won(winnings, p)
    {
      assert Holds(after, p) <==> Holds(rewards, p) || p == Pair(r.utility, r.winner);
      assert (exists q :: q in winnings && q.utility == p.utility && q.winner == p.user)
        <==> (exists q :: q in before && q.utility == p.utility && q.winner == p.user) || (r.utility == p.utility && r.winner == p.user);
      WonStep(before, r, p);
      NotWon(before, p);
    }
  }

  lemma RangeOfOne(r: Reward)
    ensures IsRange(r.block, r.block, [r])
  {
    assert r in [r];
  }

  lemma RangeStep(first: int, last: int, before: seq<Reward>, r: Reward)
    requires IsRange(first, last, before)
    ensures IsRange(if r.block < first then r.block else first, if last < r.block then r.block else last, before + [r])
  {
    var winnings := before + [r];
    assert r in winnings;
    var a :| a in before && a.block == first;
    var b :| b in before && b.block == last;
    assert a in winnings && b in winnings;
  }

  method AddReward(rewards0: map<string, map<string, int>>, reward: Reward) returns (rewards: map<string, map<string, int>>)
    ensures rewards == Added(rewards0, reward)
  {
    rewards := rewards0;
    if reward.utility !in rewards {
      rewards := rewards[reward.utility := map[]];
    }
    var users := rewards[reward.utility];
    var won := 0;
    if reward.winner in users {
      won := users[reward.winner];
    }
    won := won + reward.amount;
    rewards := rewards[reward.utility := users[reward.winner := won]];
  }

  /** An error if and only if some category differs; otherwise the least and greatest block and the
      sums by utility and user. */
  method BatchWinnings(winnings: seq<Reward>, category: string) returns (batch: Batch)
    ensures batch.Panicked? <==> winnings == []
    ensures batch.Mismatch? <==> winnings != [] && !AllOf(winnings, category)
    ensures batch.Batched? ==> IsRange(batch.first, batch.last, winnings) && Exact(batch.rewards, winnings)
  {
    if winnings == [] {
      return Panicked;
    }
    var rewards: map<string, map<string, int>> := map[];
    var firstBlock, lastBlock := winnings[0].block, winnings[0].block;
    for i := 0 to |winnings|
      invariant AllOf(winnings[..i], category)
      invariant i == 0 ==> firstBlock == lastBlock == winnings[0].block
      invariant i > 0 ==> IsRange(firstBlock, lastBlock, winnings[..i])
      invariant Exact(rewards, winnings[..i])
    {
      hide Exact, IsRange, Added;
      var reward := winnings[i];
      assert winnings[..i + 1] == winnings[..i] + [reward];
      assert reward in winnings;
      if reward.category != category {
        return Mismatch;
      }
      if i > 0 {
        RangeStep(firstBlock, lastBlock, winnings[..i], reward);
      }
      AddedIsExact(rewards, winnings[..i], reward);
      if reward.block < firstBlock {
        firstBlock := reward.block;
      }
      if lastBlock < reward.block {
        lastBlock := reward.block;
      }
      rewards := AddReward(rewards, reward);
      if i == 0 {
        RangeOfOne(reward);
        assert winnings[..1] == [reward];
      }
    }
    assert winnings[..|winnings|] == winnings;
    return Batched(firstBlock, lastBlock, rewards);
  }

  // ---- conservation

  function Pairs(rewards: map<string, map<string, int>>): set<Pair> {
    set u, w | u in rewards && w in rewards[u] :: Pair(u, w)
  }

  ghost function SumOver(pairs: set<Pair>, winnings: seq<Reward>): int {
    if pairs == {} then 0 else
      var p :| p in pairs;
      Won(winnings, p) + SumOver(pairs - {p}, winnings)
  }

  /** The whole of what a batch pays out. */
  ghost function Paid(rewards: map<string, map<string, int>>, pairs: set<Pair>): int
    requires pairs <= Pairs(rewards)
  {
    if pairs == {} then 0 else
      var p :| p in pairs;
      rewards[p.utility][p.user] + Paid(rewards, pairs - {p})
  }

  lemma {:induction false} SumWithout(pairs: set<Pair>, winnings: seq<Reward>, p: Pair)
    requires p in pairs
    ensures SumOver(pairs, winnings) == Won(winnings, p) + SumOver(pairs - {p}, winnings)
    decreases pairs
  {
    hide Won;
    var q :| q in pairs && SumOver(pairs, winnings) == Won(winnings, q) + SumOver(pairs - {q}, winnings);
    if q != p {
      SumWithout(pairs - {q}, winnings, p);
      SumWithout(pairs - {p}, winnings, q);
      assert pairs - {q} - {p} == pairs - {p} - {q};
    }
  }

  lemma {:induction false} SumStep(pairs: set<Pair>, before: seq<Reward>, r: Reward)
    ensures SumOver(pairs, before + [r]) == SumOver(pairs, before) + if Pair(r.utility, r.winner) in pairs then r.amount else 0
    decreases pairs
  {
    if pairs != {} {
      hide Won, SumOver;
      var p :| p in pairs;
      SumStep(pairs - {p}, before, r);
      SumWithout(pairs, before + [r], p);
      SumWithout(pairs, before, p);
      WonStep(before, r, p);
    }
  }

  lemma {:induction false} SumIsTotal(pairs: set<Pair>, winnings: seq<Reward>)
    requires forall r :: r in winnings ==> Pair(r.utility, r.winner) in pairs
    ensures SumOver(pairs, winnings) == Total(winnings)
  {
    if winnings == [] {
      SumOfNothing(pairs, winnings);
    } else {
      var before, r := winnings[..|winnings| - 1], winnings[|winnings| - 1];
      assert winnings == before + [r] && r in winnings;
      SumIsTotal(pairs, before);
      SumStep(pairs, before, r);
    }
  }

  lemma {:induction false} SumOfNothing(pairs: set<Pair>, winnings: seq<Reward>)
    requires winnings == []
    ensures SumOver(pairs, winnings) == 0
    decreases pairs
  {
    if pairs != {} {
      var p :| p in pairs;
      SumWithout(pairs, winnings, p);
      SumOfNothing(pairs - {p}, winnings);
    }
  }

  lemma ExactAt(rewards: map<string, map<string, int>>, winnings: seq<Reward>, p: Pair)
    requires Exact(rewards, winnings) && p in Pairs(rewards)
    ensures rewards[p.utility][p.user] == Won(winnings, p)
  {
    assert Holds(rewards, p);
  }

  lemma {:induction false} PaidIsSum(rewards: map<string, map<string, int>>, winnings: seq<Reward>, pairs: set<Pair>)
    requires Exact(rewards, winnings) && pairs <= Pairs(rewards)
    ensures Paid(rewards, pairs) == SumOver(pairs, winnings)
    decreases pairs
  {
    if pairs != {} {
      hide Won, Exact;
      var p :| p in pairs && Paid(rewards, pairs) == rewards[p.utility][p.user] + Paid(rewards, pairs - {p});
      PaidIsSum(rewards, winnings, pairs - {p});
      SumWithout(pairs, winnings, p);
      ExactAt(rewards, winnings, p);
    }
  }

  /** A batch pays out exactly what its winnings add up to. */
  lemma BatchConserved(rewards: map<string, map<string, int>>, winnings: seq<Reward>)
    requires Exact(rewards, winnings)
    ensures Paid(rewards, Pairs(rewards)) == Total(winnings)
  {
    forall r | r in winnings ensures Pair(r.utility, r.winner) in Pairs(rewards) {
      assert Holds(rewards, Pair(r.utility, r.winner));
    }
    PaidIsSum(rewards, winnings, Pairs(rewards));
    SumIsTotal(Pairs(rewards), winnings);
  }
}
