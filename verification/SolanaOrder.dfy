/** Where the stable sort puts each meta, which meta of a key comes first, and so which metas of the
    callers a compilation changes (common/solana/util.go). */
module SolanaOrder {
  import opened SolanaMessage
  import opened SolanaLayout

  // ---- the sort, one insertion at a time

  lemma OfRankAppend(ms: seq<Meta>, m: Meta, r: nat)
    ensures OfRank(ms + [m], r) == OfRank(ms, r) + if Rank(m) == r then [m] else []
  {
    assert (ms + [m])[..|ms|] == ms;
  }

  /** The metas of rank at most r, and those from r up, as the sort lays them out. */
  function UpTo(ms: seq<Meta>, r: nat): seq<Meta> {
    (if r == 0 then [] else UpTo(ms, r - 1)) + OfRank(ms, r)
  }

  function FromRank(ms: seq<Meta>, r: nat): seq<Meta>
    decreases 4 - r
  {
    if r >= 4 then [] else OfRank(ms, r) + FromRank(ms, r + 1)
  }

  lemma Regroup(a: seq<Meta>, b: seq<Meta>, c: seq<Meta>)
    ensures (a + b) + c == a + (b + c)
  {}

  lemma UpToStep(ms: seq<Meta>, r: nat)
    ensures UpTo(ms, r) == if r == 0 then OfRank(ms, 0) else UpTo(ms, r - 1) + OfRank(ms, r)
    ensures r < 4 ==> FromRank(ms, r) == OfRank(ms, r) + FromRank(ms, r + 1)
    ensures FromRank(ms, 4) == []
  {}

  lemma WholeFromRank(ms: seq<Meta>)
    ensures Sorted(ms) == OfRank(ms, 0) + FromRank(ms, 1)
  {
    var f1, f2, f3 := OfRank(ms, 1), OfRank(ms, 2), OfRank(ms, 3);
    UpToStep(ms, 1);
    UpToStep(ms, 2);
    UpToStep(ms, 3);
    hide OfRank, FromRank;
    assert f3 + [] == f3;
    Regroup(OfRank(ms, 0), f1, f2 + f3);
    Regroup(OfRank(ms, 0) + f1, f2, f3);
  }

  lemma {:induction false} SortedSplits(ms: seq<Meta>, r: nat)
    requires r < 4
    ensures Sorted(ms) == UpTo(ms, r) + FromRank(ms, r + 1)
  {
    hide OfRank, UpTo, FromRank, Sorted;
    UpToStep(ms, r);
    if r > 0 {
      SortedSplits(ms, r - 1);
      Regroup(UpTo(ms, r - 1), OfRank(ms, r), FromRank(ms, r + 1));
    } else {
      WholeFromRank(ms);
    }
  }

  lemma {:induction false} UpToMembers(ms: seq<Meta>, r: nat)
    ensures forall m :: m in UpTo(ms, r) ==> m in ms && Rank(m) <= r
  {
    OfRankMembers(ms, r);
    hide OfRank;
    if r > 0 {
      UpToMembers(ms, r - 1);
    }
  }

  lemma {:induction false} FromRankMembers(ms: seq<Meta>, r: nat)
    ensures forall m :: m in FromRank(ms, r) ==> Rank(m) >= r
    decreases 4 - r
  {
    OfRankMembers(ms, r);
    hide OfRank;
    if r < 4 {
      FromRankMembers(ms, r + 1);
    }
  }

  lemma {:induction false} UpToAppend(ms: seq<Meta>, m: Meta, r: nat)
    requires r <= Rank(m)
    ensures UpTo(ms + [m], r) == if r == Rank(m) then UpTo(ms, r) + [m] else UpTo(ms, r)
  {
    hide OfRank, UpTo;
    OfRankAppend(ms, m, r);
    UpToStep(ms, r);
    UpToStep(ms + [m], r);
    if r > 0 {
      UpToAppend(ms, m, r - 1);
      Regroup(UpTo(ms, r - 1), OfRank(ms, r), [m]);
    }
  }

  lemma {:induction false} FromRankAppend(ms: seq<Meta>, m: Meta, r: nat)
    requires r > Rank(m)
    ensures FromRank(ms + [m], r) == FromRank(ms, r)
    decreases 4 - r
  {
    OfRankAppend(ms, m, r);
    hide OfRank;
    if r < 4 {
      FromRankAppend(ms, m, r + 1);
    }
  }

  lemma InsertSorted(ms: seq<Meta>, m: Meta, p: nat)
    requires p <= |Sorted(ms)|
    requires forall i :: 0 <= i < p ==> Rank(Sorted(ms)[i]) <= Rank(m)
    requires forall i :: p <= i < |Sorted(ms)| ==> Rank(m) < Rank(Sorted(ms)[i])
    ensures Sorted(ms)[..p] + [m] + Sorted(ms)[p..] == Sorted(ms + [m])
    ensures p == |UpTo(ms, Rank(m))|
  {
    hide Sorted, UpTo, FromRank, Rank;
    var r := Rank(m);
    SortedSplits(ms, r);
    SortedSplits(ms + [m], r);
    UpToMembers(ms, r);
    FromRankMembers(ms, r + 1);
    SplitPoint(UpTo(ms, r), FromRank(ms, r + 1), r, p);
    UpToAppend(ms, m, r);
    FromRankAppend(ms, m, r + 1);
  }

  lemma SplitPoint(low: seq<Meta>, high: seq<Meta>, r: nat, p: nat)
    requires p <= |low + high|
    requires forall i :: 0 <= i < p ==> Rank((low + high)[i]) <= r
    requires forall i :: p <= i < |low + high| ==> r < Rank((low + high)[i])
    requires (forall m :: m in low ==> Rank(m) <= r) && (forall m :: m in high ==> r < Rank(m))
    ensures p == |low|
  {
    forall i | 0 <= i < |low| ensures Rank((low + high)[i]) <= r { assert low[i] in low; }
    forall i | |low| <= i < |low + high| ensures r < Rank((low + high)[i]) { assert high[i - |low|] in high; }
    assert |low| > 0 ==> Rank((low + high)[|low| - 1]) <= r;
    assert |high| > 0 ==> r < Rank((low + high)[|low|]);
  }

  // ---- places

  /** How many metas are of lower rank. */
  function Below(ms: seq<Meta>, r: nat): nat {
    if r == 0 then 0 else |UpTo(ms, r - 1)|
  }

  /** Where the sort puts the i-th meta: after all of lower rank and the earlier ones of its own. */
  function Place(ms: seq<Meta>, i: nat): nat
    requires i < |ms|
  {
    Below(ms, Rank(ms[i])) + |OfRank(ms[..i], Rank(ms[i]))|
  }

  lemma UpToGrows(ms: seq<Meta>, q: nat, r: nat)
    requires q <= r
    ensures |UpTo(ms, q)| <= |UpTo(ms, r)|
    decreases r
  {
    if q < r {
      UpToGrows(ms, q, r - 1);
    }
  }

  lemma PlaceBounds(ms: seq<Meta>, i: nat)
    requires i < |ms|
    ensures Below(ms, Rank(ms[i])) <= Place(ms, i) < |UpTo(ms, Rank(ms[i]))| <= |Sorted(ms)|
  {
    hide OfRank, Sorted, Rank;
    var r := Rank(ms[i]);
    OfRankGrows(ms, i, |ms|, r);
    assert ms[..|ms|] == ms;
    SortedSplits(ms, r);
  }

  /** The order of a stable sort: by rank, and within a rank as before. */
  lemma PlaceIsStable(ms: seq<Meta>, i: nat, j: nat)
    requires i < |ms| && j < |ms|
    ensures Place(ms, i) < Place(ms, j) <==> Rank(ms[i]) < Rank(ms[j]) || (Rank(ms[i]) == Rank(ms[j]) && i < j)
  {
    hide OfRank, Rank, UpTo;
    PlaceBounds(ms, i);
    PlaceBounds(ms, j);
    var q, r := Rank(ms[i]), Rank(ms[j]);
    if q < r {
      UpToGrows(ms, q, r - 1);
    } else if r < q {
      UpToGrows(ms, r, q - 1);
    } else if i < j {
      OfRankGrows(ms, i, j, r);
    } else if j < i {
      OfRankGrows(ms, j, i, r);
    }
  }

  lemma {:induction false} UpToSize(ms: seq<Meta>, m: Meta, r: nat)
    ensures |UpTo(ms + [m], r)| == |UpTo(ms, r)| + if r >= Rank(m) then 1 else 0
  {
    OfRankAppend(ms, m, r);
    hide OfRank;
    if r > 0 {
      UpToSize(ms, m, r - 1);
    }
  }

  /** Adding a meta moves those of higher rank up by one, and puts it before them. */
  lemma PlaceAfterInsert(ms: seq<Meta>, m: Meta, i: nat)
    requires i < |ms|
    ensures var p := |UpTo(ms, Rank(m))|;
            && Place(ms + [m], |ms|) == p
            && Place(ms + [m], i) == if Place(ms, i) < p then Place(ms, i) else Place(ms, i) + 1
  {
    hide OfRank, Rank, UpTo;
    var q, r := Rank(ms[i]), Rank(m);
    assert (ms + [m])[..i] == ms[..i] && (ms + [m])[i] == ms[i];
    PlaceBounds(ms, i);
    if q > 0 {
      UpToSize(ms, m, q - 1);
    }
    if q <= r {
      UpToGrows(ms, q, r);
    } else {
      UpToGrows(ms, r, q - 1);
    }
    LastPlace(ms, m);
  }

  lemma LastPlace(ms: seq<Meta>, m: Meta)
    ensures Place(ms + [m], |ms|) == |UpTo(ms, Rank(m))|
  {
    hide OfRank, Rank;
    assert (ms + [m])[..|ms|] == ms && (ms + [m])[|ms|] == m;
    var r := Rank(m);
    if r > 0 {
      UpToSize(ms, m, r - 1);
    }
  }

  // ---- the meta that leads its key

  /** The first of the metas of a key that are of least rank. */
  function LeaderIndex(ms: seq<Meta>, k: PublicKey): (i: nat)
    requires HasKey(ms, k)
    ensures i < |ms| && ms[i].key == k
    ensures forall j :: 0 <= j < |ms| && ms[j].key == k ==> Rank(ms[i]) <= Rank(ms[j])
    ensures forall j :: 0 <= j < i && ms[j].key == k ==> Rank(ms[i]) < Rank(ms[j])
  {
    var last := |ms| - 1;
    assert ms == ms[..last] + [ms[last]];
    if HasKey(ms[..last], k) then
      var i := LeaderIndex(ms[..last], k);
      if ms[last].key == k && Rank(ms[last]) < Rank(ms[i]) then last else i
    else
      assert forall j :: 0 <= j < last ==> ms[j] in ms[..last];
      last
  }

  /** It is the one the sort puts first. */
  lemma LeaderPlace(ms: seq<Meta>, k: PublicKey)
    requires HasKey(ms, k)
    ensures k in SortedKeys(ms) && First(SortedKeys(ms), k) == Place(ms, LeaderIndex(ms, k))
    ensures Leader(ms, k) == ms[LeaderIndex(ms, k)]
  {
    hide OfRank, Rank, First;
    var i := LeaderIndex(ms, k);
    var r := Rank(ms[i]);
    FirstOfRank(ms, k, i, r);
    SortedSplits(ms, r);
    var low, own := if r == 0 then [] else UpTo(ms, r - 1), OfRank(ms, r);
    var place := |low| + First(Keys(own), k);
    assert Sorted(ms) == low + own + FromRank(ms, r + 1);
    assert SortedKeys(ms)[place] == k && Sorted(ms)[place] == own[First(Keys(own), k)];
    OfRankMembers(ms, r);
    forall x | 0 <= x < place ensures SortedKeys(ms)[x] != k {
      if x < |low| {
        UpToMembers(ms, r - 1);
        assert low[x] in low && Sorted(ms)[x] == low[x];
        var j :| 0 <= j < |ms| && ms[j] == low[x];
      } else {
        assert Sorted(ms)[x] == own[x - |low|];
        assert Keys(own)[x - |low|] != k;
      }
    }
    FirstIs(SortedKeys(ms), k, place);
    SameMeta(ms, k, Sorted(ms)[place], ms[i]);
  }

  lemma FirstIs(ks: seq<PublicKey>, k: PublicKey, p: nat)
    requires p < |ks| && ks[p] == k && forall x :: 0 <= x < p ==> ks[x] != k
    ensures k in ks && First(ks, k) == p
  {}

  lemma SameMeta(ms: seq<Meta>, k: PublicKey, m: Meta, q: Meta)
    requires m.key == q.key && Rank(m) == Rank(q)
    ensures m == q
  {}

  // ---- the metas a compilation changes

  /** Each named meta that leads its key is as the message has its key. */
  ghost predicate LeadersKept(ms: seq<Meta>, named: nat, payer: PublicKey)
    requires named <= |ms|
  {
    forall i :: 0 <= i < named && Leads(ms, i) ==> FinalMeta(ms, payer, ms[i].key) == ms[i]
  }

  ghost predicate Leads(ms: seq<Meta>, i: nat)
    requires i < |ms|
  {
    assert ms[i] in ms;
    LeaderIndex(ms, ms[i].key) == i
  }

  /** No key is promoted, and the fee payer, if some meta names it, has one that is a writable signer. */
  ghost predicate NothingRaised(sources: seq<Source>, payer: PublicKey) {
    && (forall k :: !Promoted(Gathered(sources), payer, k))
    && (HasKey(Accounts(sources), payer) ==> Meta(payer, true, true) in Gathered(sources))
  }

  lemma ProgramsRankLast(sources: seq<Source>)
    ensures var ms, named := Gathered(sources), |Accounts(sources)|;
            named <= |ms| && forall j :: named <= j < |ms| ==> Rank(ms[j]) == 3 && !ms[j].signer
  {
    hide Accounts, ProgramIds;
    var ms, named := Gathered(sources), |Accounts(sources)|;
    forall j | named <= j < |ms| ensures Rank(ms[j]) == 3 && !ms[j].signer {
      assert ms[j] == ProgramMetas(ProgramIds(sources))[j - named];
    }
  }

  /** The leader of a key that a caller names is a caller's: the programs' metas come last and rank last. */
  lemma LeaderIsNamed(sources: seq<Source>, k: PublicKey)
    requires HasKey(Accounts(sources), k)
    ensures HasKey(Gathered(sources), k) && LeaderIndex(Gathered(sources), k) < |Accounts(sources)|
  {
    hide Accounts, ProgramIds;
    var ms, accounts := Gathered(sources), Accounts(sources);
    var m :| m in accounts && m.key == k;
    var i :| 0 <= i < |accounts| && accounts[i] == m;
    assert ms[i] == m && m in ms;
    ProgramsRankLast(sources);
  }

  lemma SignerIsNamed(sources: seq<Source>, k: PublicKey)
    requires SignerKey(Gathered(sources), k)
    ensures HasKey(Accounts(sources), k)
  {
    hide Accounts, ProgramIds;
    var ms, accounts := Gathered(sources), Accounts(sources);
    var m :| m in ms && m.key == k && m.signer;
    var i :| 0 <= i < |ms| && ms[i] == m;
    ProgramsRankLast(sources);
    assert m in accounts;
  }

  /** What the message has for a key never lacks a flag that one of the key's metas has. */
  lemma FlagsOnlyRise(ms: seq<Meta>, payer: PublicKey, i: nat)
    requires i < |ms|
    ensures var after := FinalMeta(ms, payer, ms[i].key);
            && (ms[i].writable ==> after.writable) && (ms[i].signer ==> after.signer)
  {
    assert ms[i] in ms;
  }

  /** How the meta that leads a key differs from what the message has for the key. */
  lemma LeaderDiffers(ms: seq<Meta>, payer: PublicKey, k: PublicKey)
    requires HasKey(ms, k)
    ensures FinalMeta(ms, payer, k) == ms[LeaderIndex(ms, k)] <==>
      if k == payer then Meta(payer, true, true) in ms else !Promoted(ms, payer, k)
  {
    LeaderPlace(ms, k);
    LeaderFlags(ms, k);
    var m := ms[LeaderIndex(ms, k)];
    assert m in ms && m == Meta(k, m.writable, m.signer);
    if Meta(k, true, true) in ms {
      var j :| 0 <= j < |ms| && ms[j] == Meta(k, true, true);
      assert Rank(ms[j]) == 0;
    }
  }

  /** The leaders among the callers' metas are all kept if and only if nothing is raised. */
  lemma LeadersKeptExactly(sources: seq<Source>, payer: PublicKey)
    ensures |Accounts(sources)| <= |Gathered(sources)|
    ensures LeadersKept(Gathered(sources), |Accounts(sources)|, payer) <==> NothingRaised(sources, payer)
  {
    hide Accounts, Promoted, FinalMeta, Rank;
    var ms, named := Gathered(sources), |Accounts(sources)|;
    forall k | HasKey(Accounts(sources), k) && LeadersKept(ms, named, payer)
      ensures HasKey(ms, k) && FinalMeta(ms, payer, k) == ms[LeaderIndex(ms, k)]
    {
      LeaderIsNamed(sources, k);
      assert Leads(ms, LeaderIndex(ms, k));
    }
    forall k | HasKey(ms, k)
      ensures FinalMeta(ms, payer, k) == ms[LeaderIndex(ms, k)] <==>
        if k == payer then Meta(payer, true, true) in ms else !Promoted(ms, payer, k)
    {
      LeaderDiffers(ms, payer, k);
    }
    forall k | Promoted(ms, payer, k) ensures k != payer && HasKey(Accounts(sources), k) {
      PromotedSigns(ms, payer, k);
      SignerIsNamed(sources, k);
    }
    forall i | 0 <= i < named ensures HasKey(Accounts(sources), ms[i].key) && HasKey(ms, ms[i].key) {
      assert ms[i] == Accounts(sources)[i] && ms[i] in Accounts(sources) && ms[i] in ms;
    }
  }

  lemma PromotedSigns(ms: seq<Meta>, payer: PublicKey, k: PublicKey)
    requires Promoted(ms, payer, k)
    ensures k != payer && SignerKey(ms, k)
  {}
}
