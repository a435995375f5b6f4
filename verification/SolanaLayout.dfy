/** What every compiled Solana message satisfies: references resolve, keys are unique, and the
    account list has the layout the header announces. */
module SolanaLayout {
  import opened Bytes
  import opened SolanaMessage

  // ---- references

  /** Every compiled program and account index leads back to the key the caller named. */
  ghost predicate Resolves(c: Compiled, s: Source, keys: seq<PublicKey>) {
    && c.programIndex < |keys| && keys[c.programIndex] == s.program
    && |c.accounts| == |s.accounts|
    && (forall i :: 0 <= i < |c.accounts| ==> c.accounts[i] < |keys| && keys[c.accounts[i]] == s.accounts[i].key)
    && c.data == s.data
  }

  lemma {:induction false} GatheredHasAll(sources: seq<Source>, i: nat)
    requires i < |sources|
    ensures sources[i].program in ProgramIds(sources)
    ensures forall m :: m in sources[i].accounts ==> m in Accounts(sources)
  {
    if i < |sources| - 1 {
      GatheredHasAll(sources[..|sources| - 1], i);
    }
  }

  lemma SourceKeysPresent(sources: seq<Source>, payer: PublicKey, i: nat)
    requires i < |sources|
    ensures var keys := FinalKeys(Gathered(sources), payer);
            && sources[i].program in keys
            && forall m :: m in sources[i].accounts ==> m.key in keys
  {
    GatheredHasAll(sources, i);
    var ids, g := ProgramIds(sources), Gathered(sources);
    var p :| 0 <= p < |ids| && ids[p] == sources[i].program;
    assert ProgramMetas(ids)[p] in g;
    forall m | m in sources[i].accounts ensures HasKey(g, m.key) { assert m in g; }
  }

  lemma PositionOf(keys: seq<PublicKey>, i: nat)
    requires i < |keys| && NoDuplicates(keys)
    ensures Position(keys, keys[i]) == i
  {
    assert keys[i] in keys;
  }

  lemma IndexResolves(keys: seq<PublicKey>, k: PublicKey)
    requires k in keys && NoDuplicates(keys)
    ensures IndexOf(keys, k) < |keys| && keys[IndexOf(keys, k)] == k <==> Position(keys, k) < 0x1_0000
  {
    hide Position;
    if IndexOf(keys, k) < |keys| {
      PositionOf(keys, IndexOf(keys, k));
    }
  }

  /** Every key an instruction mentions stands before position n. */
  predicate MentionsBelow(s: Source, keys: seq<PublicKey>, n: nat) {
    && Position(keys, s.program) < n
    && forall a :: 0 <= a < |s.accounts| ==> Position(keys, s.accounts[a].key) < n
  }

  lemma KeysOfFinal(ms: seq<Meta>, payer: PublicKey)
    ensures Keys(Final(ms, payer)) == FinalKeys(ms, payer)
  {}

  /** Compiling preserves meaning: an instruction still names its program and accounts, in order, if and
      only if none of their keys stands at 65536 or beyond. */
  lemma ReferencesResolve(sources: seq<Source>, blockhash: PublicKey, payer: PublicKey, i: nat)
    requires i < |sources|
    ensures var message := MessageFor(sources, blockhash, payer);
            && |message.instructions| == |sources|
            && (Resolves(message.instructions[i], sources[i], message.keys) <==>
                 MentionsBelow(sources[i], message.keys, 0x1_0000))
  {
    hide IndexOf, Position, FinalKeys;
    var keys := FinalKeys(Gathered(sources), payer);
    KeysOfFinal(Gathered(sources), payer);
    SourceKeysPresent(sources, payer, i);
    IndexResolves(keys, sources[i].program);
    forall a | 0 <= a < |sources[i].accounts|
      ensures var k := sources[i].accounts[a].key;
              IndexOf(keys, k) < |keys| && keys[IndexOf(keys, k)] == k <==> Position(keys, k) < 0x1_0000
    {
      assert sources[i].accounts[a] in sources[i].accounts;
      IndexResolves(keys, sources[i].accounts[a].key);
    }
  }

  /** So all of them do in a message of at most 65536 keys. */
  lemma FewKeysResolve(sources: seq<Source>, blockhash: PublicKey, payer: PublicKey, i: nat)
    requires i < |sources| && |FinalKeys(Gathered(sources), payer)| <= 0x1_0000
    ensures var message := MessageFor(sources, blockhash, payer);
            Resolves(message.instructions[i], sources[i], message.keys)
  {
    hide Position, FinalKeys;
    KeysOfFinal(Gathered(sources), payer);
    SourceKeysPresent(sources, payer, i);
    assert forall a :: 0 <= a < |sources[i].accounts| ==> sources[i].accounts[a] in sources[i].accounts;
    ReferencesResolve(sources, blockhash, payer, i);
  }

  // ---- order of the keys

  function First(ks: seq<PublicKey>, k: PublicKey): (p: nat)
    requires k in ks
    ensures p < |ks| && ks[p] == k && forall j :: 0 <= j < p ==> ks[j] != k
  {
    if k in ks[..|ks| - 1] then First(ks[..|ks| - 1], k) else |ks| - 1
  }

  /** ks lists some keys of base by first occurrence. */
  ghost predicate ByFirst(ks: seq<PublicKey>, base: seq<PublicKey>) {
    && (forall k :: k in ks ==> k in base)
    && forall i, j :: 0 <= i < j < |ks| ==> First(base, ks[i]) < First(base, ks[j])
  }

  lemma AppendByFirst(r: seq<PublicKey>, base: seq<PublicKey>, k: PublicKey)
    requires ByFirst(r, base) && k in base
    requires forall i :: 0 <= i < |r| ==> First(base, r[i]) < First(base, k)
    ensures ByFirst(r + [k], base)
  {}

  lemma {:induction false} DistinctByFirst(ks: seq<PublicKey>)
    ensures ByFirst(Distinct(ks), ks)
  {
    if ks != [] {
      var last := |ks| - 1;
      var ds := Distinct(ks[..last]);
      DistinctByFirst(ks[..last]);
      forall k | k in ds ensures k in ks && First(ks, k) == First(ks[..last], k) {}
      assert ByFirst(ds, ks);
      if ks[last] !in ds {
        AppendByFirst(ds, ks, ks[last]);
      }
    }
  }

  lemma {:induction false} WithoutByFirst(ks: seq<PublicKey>, base: seq<PublicKey>, k: PublicKey)
    requires ByFirst(ks, base)
    ensures ByFirst(Without(ks, k), base)
  {
    hide ByFirst;
    if ks == [] {
      assert Without(ks, k) == ks;
    } else {
      var last := |ks| - 1;
      var r := Without(ks[..last], k);
      assert ByFirst(ks[..last], base) && ks[last] in base by { PrefixByFirst(ks, base); }
      WithoutByFirst(ks[..last], base, k);
      forall i | 0 <= i < |r| ensures r[i] in base && First(base, r[i]) < First(base, ks[last]) {
        assert r[i] in ks[..last];
        PrefixByFirst(ks, base);
      }
      AppendByFirst(r, base, ks[last]);
    }
  }

  lemma PrefixByFirst(ks: seq<PublicKey>, base: seq<PublicKey>)
    requires ks != [] && ByFirst(ks, base)
    ensures var last := |ks| - 1;
            && ByFirst(ks[..last], base) && ks[last] in base
            && forall k :: k in ks[..last] ==> k in base && First(base, k) < First(base, ks[last])
  {}

  ghost function SortedKeys(ms: seq<Meta>): seq<PublicKey> {
    Keys(Sorted(ms))
  }

  /** After the payer, the keys come in the order of their first meta in the sort. */
  lemma OthersByFirst(ms: seq<Meta>, payer: PublicKey, i: nat, j: nat)
    requires 0 < i < j < |FinalKeys(ms, payer)|
    ensures var ks := FinalKeys(ms, payer);
            && ks[i] in SortedKeys(ms) && ks[j] in SortedKeys(ms)
            && First(SortedKeys(ms), ks[i]) < First(SortedKeys(ms), ks[j])
  {
    DistinctByFirst(SortedKeys(ms));
    WithoutByFirst(Distinct(SortedKeys(ms)), SortedKeys(ms), payer);
  }

  /** A key's first meta in the sort has the least rank among its metas. */
  ghost function Leader(ms: seq<Meta>, k: PublicKey): (m: Meta)
    requires k in SortedKeys(ms)
    ensures m in ms && m.key == k
    ensures forall q :: q in ms && q.key == k ==> Rank(m) <= Rank(q)
  {
    SortedMembers(ms);
    SortedAscending(ms);
    var p := First(SortedKeys(ms), k);
    assert forall q :: q in ms && q.key == k ==> Rank(Sorted(ms)[p]) <= Rank(q) by {
      forall q | q in ms && q.key == k ensures Rank(Sorted(ms)[p]) <= Rank(q) {
        var j :| 0 <= j < |Sorted(ms)| && Sorted(ms)[j] == q;
        assert SortedKeys(ms)[j] == k;
      }
    }
    Sorted(ms)[p]
  }

  lemma LeaderFlags(ms: seq<Meta>, k: PublicKey)
    requires k in SortedKeys(ms)
    ensures Leader(ms, k).signer <==> SignerKey(ms, k)
    ensures !SignerKey(ms, k) ==> (Leader(ms, k).writable <==> WritableKey(ms, k))
  {}

  lemma LeadersAscend(ms: seq<Meta>, payer: PublicKey, i: nat, j: nat)
    requires 0 < i < j < |FinalKeys(ms, payer)|
    ensures var ks := FinalKeys(ms, payer);
            && ks[i] in SortedKeys(ms) && ks[j] in SortedKeys(ms)
            && Rank(Leader(ms, ks[i])) <= Rank(Leader(ms, ks[j]))
  {
    OthersByFirst(ms, payer, i, j);
    SortedAscending(ms);
  }

  lemma NotPayer(ms: seq<Meta>, payer: PublicKey, i: nat)
    requires 0 < i < |FinalKeys(ms, payer)|
    ensures FinalKeys(ms, payer)[i] != payer
  {}

  lemma SignersComeFirst(ms: seq<Meta>, payer: PublicKey, i: nat, j: nat)
    requires i < j < |Final(ms, payer)|
    ensures Final(ms, payer)[j].signer ==> Final(ms, payer)[i].signer
    ensures !Final(ms, payer)[i].signer && Final(ms, payer)[j].writable ==> Final(ms, payer)[i].writable
  {
    var ks := FinalKeys(ms, payer);
    if i > 0 {
      LeadersAscend(ms, payer, i, j);
      LeaderFlags(ms, ks[i]);
      LeaderFlags(ms, ks[j]);
      NotPayer(ms, payer, i);
      NotPayer(ms, payer, j);
    }
  }

  // ---- counting a block

  lemma {:induction false} CountPrefix(bs: seq<bool>)
    requires forall i, j :: 0 <= i < j < |bs| && bs[j] ==> bs[i]
    ensures forall i :: 0 <= i < |bs| ==> (bs[i] <==> i < Count(bs))
  {
    if bs != [] {
      CountPrefix(bs[..|bs| - 1]);
      if bs[|bs| - 1] {
        CountAll(bs);
      }
    }
  }

  lemma {:induction false} CountAll(bs: seq<bool>)
    requires forall i :: 0 <= i < |bs| ==> bs[i]
    ensures Count(bs) == |bs|
  {
    if bs != [] {
      CountAll(bs[..|bs| - 1]);
    }
  }

  lemma {:induction false} CountNone(bs: seq<bool>, from: nat)
    requires from <= |bs| && forall i :: from <= i < |bs| ==> !bs[i]
    ensures Count(bs) == Count(bs[..from])
  {
    if from < |bs| {
      CountNone(bs[..|bs| - 1], from);
      assert bs[..|bs| - 1][..from] == bs[..from];
    } else {
      assert bs[..from] == bs;
    }
  }

  lemma {:induction false} CountSuffix(bs: seq<bool>)
    requires forall i, j :: 0 <= i < j < |bs| && bs[i] ==> bs[j]
    ensures forall i :: 0 <= i < |bs| ==> (bs[i] <==> i >= |bs| - Count(bs))
  {
    if bs != [] {
      CountSuffix(bs[..|bs| - 1]);
      if !bs[|bs| - 1] {
        CountNone(bs, 0);
      }
    }
  }

  // ---- the header

  /** The counters are the counts, as bytes. */
  lemma HeaderCounts(f: seq<Meta>)
    ensures HeaderOf(f).required as int == Count(Signers(f)) % 256
    ensures HeaderOf(f).readonlySigned as int == Count(ReadonlySigners(f)) % 256
    ensures HeaderOf(f).readonlyUnsigned as int == Count(ReadonlyOthers(f)) % 256
  {}

  lemma SignersAreFirst(ms: seq<Meta>, payer: PublicKey)
    ensures var f := Final(ms, payer);
            forall i :: 0 <= i < |f| ==> (f[i].signer <==> i < Count(Signers(f)))
  {
    hide Count;
    var f := Final(ms, payer);
    forall i, j | 0 <= i < j < |f| && Signers(f)[j] ensures Signers(f)[i] {
      SignersComeFirst(ms, payer, i, j);
    }
    CountPrefix(Signers(f));
  }

  lemma ReadonlyOthersAreLast(ms: seq<Meta>, payer: PublicKey)
    ensures var f := Final(ms, payer);
            forall i :: 0 <= i < |f| ==> (!f[i].signer && !f[i].writable <==> i >= |f| - Count(ReadonlyOthers(f)))
  {
    hide Count;
    var f := Final(ms, payer);
    forall i, j | 0 <= i < j < |f| && ReadonlyOthers(f)[i] ensures ReadonlyOthers(f)[j] {
      SignersComeFirst(ms, payer, i, j);
    }
    CountSuffix(ReadonlyOthers(f));
  }

  /** The first NumRequiredSignatures keys are exactly the signers. */
  ghost predicate RequiredLayout(f: seq<Meta>) {
    forall i :: 0 <= i < |f| ==> (f[i].signer <==> i < HeaderOf(f).required as int)
  }

  /** They are, if and only if the counter of signers does not wrap. */
  lemma RequiredSignersFirst(ms: seq<Meta>, payer: PublicKey)
    ensures var f := Final(ms, payer); RequiredLayout(f) <==> Count(Signers(f)) < 256
  {
    hide HeaderOf, Count;
    var f := Final(ms, payer);
    SignersAreFirst(ms, payer);
    HeaderCounts(f);
    var n := Count(Signers(f));
    assert n >= 256 ==> n % 256 < |f| && f[n % 256].signer;
  }

  /** The keys that do not sign are a writable block, then NumReadonlyUnsignedAccounts read-only ones. */
  ghost predicate UnsignedBlock(f: seq<Meta>) {
    forall i :: 0 <= i < |f| && !f[i].signer ==>
      (f[i].writable <==> i < |f| - HeaderOf(f).readonlyUnsigned as int)
  }

  /** They are, if and only if the counter of read-only ones does not wrap. */
  lemma UnsignedLayout(ms: seq<Meta>, payer: PublicKey)
    ensures var f := Final(ms, payer); UnsignedBlock(f) <==> Count(ReadonlyOthers(f)) < 256
  {
    hide HeaderOf, Count;
    var f := Final(ms, payer);
    ReadonlyOthersAreLast(ms, payer);
    HeaderCounts(f);
    var n := Count(ReadonlyOthers(f));
    assert n >= 256 ==> !f[|f| - n].signer && !f[|f| - n].writable;
  }

  /** The signing keys are a writable block, then NumReadonlySignedAccounts read-only ones. */
  ghost predicate SignedLayout(f: seq<Meta>) {
    forall i :: 0 <= i < HeaderOf(f).required as int && i < |f| ==>
      (f[i].writable <==> i < HeaderOf(f).required as int - HeaderOf(f).readonlySigned as int)
  }

  /** A signer that no meta makes writable. */
  predicate ReadonlySigner(ms: seq<Meta>, payer: PublicKey, k: PublicKey) {
    k != payer && SignerKey(ms, k) && !WritableKey(ms, k)
  }

  /** A key that signs read-only everywhere and is writable only where it does not sign. */
  predicate Promoted(ms: seq<Meta>, payer: PublicKey, k: PublicKey) {
    && k != payer && SignerKey(ms, k) && WritableKey(ms, k)
    && Meta(k, true, true) !in ms
  }

  function FirstSignerOf(ms: seq<Meta>, k: PublicKey): (i: nat)
    requires SignerKey(ms, k)
    ensures i < |ms| && ms[i].signer && ms[i].key == k
    ensures forall j :: 0 <= j < i ==> !(ms[j].signer && ms[j].key == k)
  {
    var last := |ms| - 1;
    assert ms == ms[..last] + [ms[last]];
    if SignerKey(ms[..last], k) then FirstSignerOf(ms[..last], k) else last
  }

  /** No key that merging promotes is first named as a signer after a read-only signer is. */
  ghost predicate PromotionsFirst(ms: seq<Meta>, payer: PublicKey) {
    forall k, q :: ReadonlySigner(ms, payer, k) && Promoted(ms, payer, q) ==>
      FirstSignerOf(ms, q) < FirstSignerOf(ms, k)
  }

  lemma {:induction false} FirstOfRank(ms: seq<Meta>, k: PublicKey, i: nat, r: nat)
    requires i < |ms| && ms[i].key == k && Rank(ms[i]) == r
    requires forall j :: 0 <= j < i ==> !(ms[j].key == k && Rank(ms[j]) == r)
    ensures k in Keys(OfRank(ms, r)) && First(Keys(OfRank(ms, r)), k) == |OfRank(ms[..i], r)|
  {
    var last := |ms| - 1;
    var f := OfRank(ms[..last], r);
    if i == last {
      OfRankMembers(ms[..last], r);
      forall x | 0 <= x < |f| ensures Keys(f + [ms[last]])[x] != k {
        assert f[x] in ms[..last];
      }
      assert Keys(f + [ms[last]])[|f|] == k;
    } else {
      FirstOfRank(ms[..last], k, i, r);
      assert ms[..last][..i] == ms[..i];
      assert Keys(f)[|OfRank(ms[..i], r)|] == k;
      assert Keys(OfRank(ms, r))[|OfRank(ms[..i], r)|] == k;
      assert forall x :: 0 <= x < |OfRank(ms[..i], r)| ==> Keys(OfRank(ms, r))[x] == Keys(f)[x];
    }
  }

  lemma {:induction false} OfRankGrows(ms: seq<Meta>, i: nat, j: nat, r: nat)
    requires i < j <= |ms| && Rank(ms[i]) == r
    ensures |OfRank(ms[..i], r)| < |OfRank(ms[..j], r)|
  {
    assert ms[..j][..j - 1] == ms[..j - 1];
    if i < j - 1 {
      OfRankGrows(ms, i, j - 1, r);
    }
  }

  /** For a key that never signs writable, its place in the sort follows its first signing meta. */
  lemma PlaceOfReadonlySigner(ms: seq<Meta>, k: PublicKey)
    requires SignerKey(ms, k) && Meta(k, true, true) !in ms
    ensures k in SortedKeys(ms)
    ensures First(SortedKeys(ms), k) == |OfRank(ms, 0)| + |OfRank(ms[..FirstSignerOf(ms, k)], 1)|
  {
    var i := FirstSignerOf(ms, k);
    assert ms[i] in ms;
    forall j | 0 <= j <= i && ms[j].key == k && ms[j].signer ensures Rank(ms[j]) == 1 {
      assert ms[j] in ms && ms[j] == Meta(k, ms[j].writable, true);
    }
    FirstOfRank(ms, k, i, 1);
    OfRankMembers(ms, 0);
    var f0, f1 := OfRank(ms, 0), OfRank(ms, 1);
    var p := First(Keys(f1), k);
    assert SortedKeys(ms)[|f0| + p] == k;
    forall x | 0 <= x < |f0| + p ensures SortedKeys(ms)[x] != k {
      if x < |f0| {
        assert f0[x] in ms;
      } else {
        assert SortedKeys(ms)[x] == Keys(f1)[x - |f0|];
      }
    }
  }

  lemma SameOrderAsFirstSigning(ms: seq<Meta>, k: PublicKey, q: PublicKey)
    requires k != q && SignerKey(ms, k) && Meta(k, true, true) !in ms && SignerKey(ms, q) && Meta(q, true, true) !in ms
    ensures k in SortedKeys(ms) && q in SortedKeys(ms)
    ensures First(SortedKeys(ms), k) < First(SortedKeys(ms), q) <==> FirstSignerOf(ms, k) < FirstSignerOf(ms, q)
  {
    PlaceOfReadonlySigner(ms, k);
    PlaceOfReadonlySigner(ms, q);
    var i, j := FirstSignerOf(ms, k), FirstSignerOf(ms, q);
    assert ms[i] in ms && ms[i] == Meta(k, ms[i].writable, true);
    assert ms[j] in ms && ms[j] == Meta(q, ms[j].writable, true);
    if i < j {
      OfRankGrows(ms, i, j, 1);
    } else {
      OfRankGrows(ms, j, i, 1);
    }
  }

  /** Among the signers, read-only keys come last. */
  ghost predicate ReadonlyTail(f: seq<Meta>) {
    forall i, j | 0 <= i < j < |f| :: f[i].signer && f[j].signer && !f[i].writable ==> !f[j].writable
  }

  lemma PromotionsFirstSuffices(ms: seq<Meta>, payer: PublicKey)
    requires PromotionsFirst(ms, payer)
    ensures ReadonlyTail(Final(ms, payer))
  {
    var f, ks := Final(ms, payer), FinalKeys(ms, payer);
    forall i, j | 0 <= i < j < |f| && f[i].signer && f[j].signer && !f[i].writable ensures !f[j].writable {
      if f[j].writable {
        PromotedBehind(ms, payer, i, j);
        SameOrderAsFirstSigning(ms, ks[i], ks[j]);
      }
    }
  }

  lemma PromotionsFirstNeeded(ms: seq<Meta>, payer: PublicKey, k: PublicKey, q: PublicKey)
    requires ReadonlySigner(ms, payer, k) && Promoted(ms, payer, q) && FirstSignerOf(ms, q) >= FirstSignerOf(ms, k)
    ensures !ReadonlyTail(Final(ms, payer))
  {
    hide FinalKeys, First;
    var f, ks := Final(ms, payer), FinalKeys(ms, payer);
    SameOrderAsFirstSigning(ms, k, q);
    assert HasKey(ms, k) && HasKey(ms, q);
    var i :| 0 <= i < |ks| && ks[i] == k;
    var j :| 0 <= j < |ks| && ks[j] == q;
    assert f[i].signer && f[j].signer && !f[i].writable && f[j].writable;
    assert i < j by {
      if j < i {
        OthersByFirst(ms, payer, j, i);
      }
    }
  }

  lemma PromotedBehind(ms: seq<Meta>, payer: PublicKey, i: nat, j: nat)
    requires i < j < |Final(ms, payer)|
    requires var f := Final(ms, payer); f[i].signer && f[j].signer && !f[i].writable && f[j].writable
    ensures var ks := FinalKeys(ms, payer);
            && ks[i] != ks[j] && ReadonlySigner(ms, payer, ks[i]) && Promoted(ms, payer, ks[j])
            && ks[i] in SortedKeys(ms) && ks[j] in SortedKeys(ms)
            && First(SortedKeys(ms), ks[i]) < First(SortedKeys(ms), ks[j])
            && Meta(ks[i], true, true) !in ms
  {
    var ks := FinalKeys(ms, payer);
    NotPayer(ms, payer, j);
    LeadersAscend(ms, payer, i, j);
    OthersByFirst(ms, payer, i, j);
    LeaderFlags(ms, ks[i]);
    assert Rank(Leader(ms, ks[j])) > 0;
  }

  lemma {:induction false} CountFewer(few: seq<bool>, bs: seq<bool>)
    requires |few| == |bs| && forall i :: 0 <= i < |bs| && few[i] ==> bs[i]
    ensures Count(few) <= Count(bs)
  {
    if bs != [] {
      CountFewer(few[..|few| - 1], bs[..|bs| - 1]);
    }
  }

  lemma SignedBlock(f: seq<Meta>)
    requires Count(Signers(f)) < 256 && RequiredLayout(f)
    ensures SignedLayout(f) <==> ReadonlyTail(f)
  {
    hide HeaderOf, Count;
    HeaderCounts(f);
    var s := HeaderOf(f).required as int;
    var bs := ReadonlySigners(f);
    CountFewer(bs, Signers(f));
    CountNone(bs, s);
    if ReadonlyTail(f) {
      CountSuffix(bs[..s]);
    }
  }

  /** With fewer than 256 signers, the signing block has the announced shape if and only if promotions
      come first. */
  lemma SignedLayoutExactly(ms: seq<Meta>, payer: PublicKey)
    requires Count(Signers(Final(ms, payer))) < 256
    ensures SignedLayout(Final(ms, payer)) <==> PromotionsFirst(ms, payer)
  {
    RequiredSignersFirst(ms, payer);
    SignedBlock(Final(ms, payer));
    if PromotionsFirst(ms, payer) {
      PromotionsFirstSuffices(ms, payer);
    } else {
      var k, q :| ReadonlySigner(ms, payer, k) && Promoted(ms, payer, q) && FirstSignerOf(ms, q) >= FirstSignerOf(ms, k);
      PromotionsFirstNeeded(ms, payer, k, q);
    }
  }

  /** In particular it has that shape whenever no key is both a read-only signer and a writable
      non-signer. */
  lemma SignedLayoutWithoutConflicts(ms: seq<Meta>, payer: PublicKey)
    requires Count(Signers(Final(ms, payer))) < 256
    requires forall m, q :: m in ms && q in ms && m.key == q.key ==> !(m.signer && !m.writable && q.writable && !q.signer)
    ensures SignedLayout(Final(ms, payer))
  {
    forall m, q | m in ms && q in ms && m.key == q.key && m.signer && q.writable ensures Meta(m.key, true, true) in ms {
      assert m == Meta(m.key, m.writable, true) && q == Meta(m.key, true, q.signer);
    }
    SignedLayoutExactly(ms, payer);
  }

  /** The signing block can lose its shape: b signs read-only behind a, and a later meta of b that
      does not sign makes it writable after the sort has placed it. */
  lemma SignedLayoutCanFail(a: PublicKey, b: PublicKey, payer: PublicKey)
    requires a != b && a != payer && b != payer
    ensures !SignedLayout(Final([Meta(a, false, true), Meta(b, false, true), Meta(b, true, false)], payer))
  {
    hide Final, SignedLayout, FinalKeys;
    var ms := [Meta(a, false, true), Meta(b, false, true), Meta(b, true, false)];
    assert ms[0] in ms && ms[1] in ms && ms[2] in ms;
    FinalSize(ms, payer);
    assert ReadonlySigner(ms, payer, a) && Promoted(ms, payer, b);
    assert FirstSignerOf(ms, a) == 0 by { assert ms[0].signer && ms[0].key == a; }
    SignedLayoutExactly(ms, payer);
  }

  lemma {:induction false} DistinctSize(ks: seq<PublicKey>)
    ensures |Distinct(ks)| <= |ks|
  {
    if ks != [] {
      DistinctSize(ks[..|ks| - 1]);
    }
  }

  lemma {:induction false} WithoutSize(ks: seq<PublicKey>, k: PublicKey)
    ensures |Without(ks, k)| <= |ks|
  {
    if ks != [] {
      WithoutSize(ks[..|ks| - 1], k);
    }
  }

  lemma {:induction false} OfRankSizes(ms: seq<Meta>)
    ensures |OfRank(ms, 0)| + |OfRank(ms, 1)| + |OfRank(ms, 2)| + |OfRank(ms, 3)| == |ms|
  {
    if ms != [] {
      OfRankSizes(ms[..|ms| - 1]);
    }
  }

  lemma FinalSize(ms: seq<Meta>, payer: PublicKey)
    ensures |FinalKeys(ms, payer)| == |Final(ms, payer)| <= |ms| + 1
  {
    KeysOfFinal(ms, payer);
    OfRankSizes(ms);
    DistinctSize(SortedKeys(ms));
    WithoutSize(Distinct(SortedKeys(ms)), payer);
  }
}
