/** Compiling instructions whose account metas are shared objects (common/solana/util.go). */
module SolanaCompiler {
  import opened Bytes
  import opened SolanaMessage
  import opened SolanaLayout
  import opened SolanaOrder
  import opened Options

  class AccountMeta {
    const publicKey: PublicKey
    var isWritable: bool
    var isSigner: bool

    constructor (publicKey: PublicKey, isWritable: bool, isSigner: bool)
      ensures this.publicKey == publicKey && this.isWritable == isWritable && this.isSigner == isSigner
    {
      this.publicKey, this.isWritable, this.isSigner := publicKey, isWritable, isSigner;
    }
  }

  /** The same meta object may occur in several instructions, or twice in one. The data is missing where
      encoding it fails. */
  datatype Instruction = Instruction(programId: PublicKey, accounts: seq<AccountMeta>, data: Option<seq<byte>>)

  function Data(instruction: Instruction): seq<byte> {
    if instruction.data.Some? then instruction.data.value else []
  }

  /** The first instruction whose data fails to encode, or their number. */
  function FirstFailing(instructions: seq<Instruction>): (i: nat)
    ensures i <= |instructions|
    ensures i < |instructions| ==> instructions[i].data.None?
    ensures forall j :: 0 <= j < i ==> instructions[j].data.Some?
  {
    if instructions == [] || instructions[0].data.None? then 0 else 1 + FirstFailing(instructions[1..])
  }

  function View(a: AccountMeta): Meta
    reads a
  {
    Meta(a.publicKey, a.isWritable, a.isSigner)
  }

  function Views(accounts: seq<AccountMeta>): (v: seq<Meta>)
    reads accounts
    ensures |v| == |accounts| && forall i :: 0 <= i < |v| ==> v[i] == View(accounts[i])
  {
    seq(|accounts|, i requires 0 <= i < |accounts| reads accounts => View(accounts[i]))
  }

  function PublicKeys(accounts: seq<AccountMeta>): (ks: seq<PublicKey>)
    ensures |ks| == |accounts| && forall i :: 0 <= i < |ks| ==> ks[i] == accounts[i].publicKey
  {
    seq(|accounts|, i requires 0 <= i < |accounts| => accounts[i].publicKey)
  }

  ghost function Objects(instructions: seq<Instruction>): set<AccountMeta> {
    set i, a | 0 <= i < |instructions| && a in instructions[i].accounts :: a
  }

  /** The callers' metas in the order they are named, repeats included. */
  ghost function MetaObjects(instructions: seq<Instruction>): seq<AccountMeta> {
    if instructions == [] then [] else
      MetaObjects(instructions[..|instructions| - 1]) + instructions[|instructions| - 1].accounts
  }

  ghost function SourceOf(instruction: Instruction): Source
    reads instruction.accounts
  {
    Source(instruction.programId, Views(instruction.accounts), Data(instruction))
  }

  ghost function Sources(instructions: seq<Instruction>): (s: seq<Source>)
    reads Objects(instructions)
    ensures |s| == |instructions|
    ensures forall i :: 0 <= i < |s| ==> s[i] == SourceOf(instructions[i])
  {
    if instructions == [] then [] else
      var last := |instructions| - 1;
      assert forall a :: a in instructions[last].accounts ==> a in Objects(instructions);
      assert Objects(instructions[..last]) <= Objects(instructions);
      Sources(instructions[..last]) + [SourceOf(instructions[last])]
  }

  // ---- gathering

  lemma GatherStep(sources: seq<Source>, i: nat)
    requires i < |sources|
    ensures Accounts(sources[..i + 1]) == Accounts(sources[..i]) + sources[i].accounts
    ensures var ids := ProgramIds(sources[..i]);
            ProgramIds(sources[..i + 1]) == if sources[i].program in ids then ids else ids + [sources[i].program]
  {
    assert sources[..i + 1][..i] == sources[..i];
  }

  lemma ViewsConcat(a: seq<AccountMeta>, b: seq<AccountMeta>)
    ensures Views(a + b) == Views(a) + Views(b)
  {}

  lemma ViewsCons(a: AccountMeta, b: seq<AccountMeta>)
    ensures Views([a] + b) == [View(a)] + Views(b)
  {}

  method GatherNamed(instructions: seq<Instruction>) returns (accounts: seq<AccountMeta>, programIds: seq<PublicKey>)
    ensures Views(accounts) == Accounts(Sources(instructions)) && programIds == ProgramIds(Sources(instructions))
    ensures accounts == MetaObjects(instructions) && forall a :: a in accounts <==> a in Objects(instructions)
  {
    hide Accounts, ProgramIds, Objects, MetaObjects;
    ghost var sources := Sources(instructions);
    accounts, programIds := [], [];
    NothingGathered();
    assert sources[..0] == [] && instructions[..0] == [];
    for i := 0 to |instructions|
      invariant Views(accounts) == Accounts(sources[..i]) && programIds == ProgramIds(sources[..i])
      invariant sources == Sources(instructions)
      invariant accounts == MetaObjects(instructions[..i])
      invariant forall a :: a in accounts <==> a in Objects(instructions[..i])
    {
      GatherStep(sources, i);
      ObjectsStep(instructions, i);
      ViewsConcat(accounts, instructions[i].accounts);
      assert sources[i] == SourceOf(instructions[i]);
      assert Views(instructions[i].accounts) == sources[i].accounts;
      accounts := accounts + instructions[i].accounts;
      if instructions[i].programId !in programIds {
        programIds := programIds + [instructions[i].programId];
      }
    }
    assert sources[..|instructions|] == sources && instructions[..|instructions|] == instructions;
  }

  lemma ObjectsStep(instructions: seq<Instruction>, i: nat)
    requires i < |instructions|
    ensures Objects(instructions[..i + 1]) == Objects(instructions[..i]) + set a | a in instructions[i].accounts
    ensures MetaObjects(instructions[..i + 1]) == MetaObjects(instructions[..i]) + instructions[i].accounts
  {
    assert instructions[..i + 1][..i] == instructions[..i];
  }

  lemma NothingGathered()
    ensures Accounts([]) == [] && ProgramIds([]) == [] && Objects([]) == {} && MetaObjects([]) == []
  {}

  method Gather(instructions: seq<Instruction>) returns (accounts: seq<AccountMeta>)
    ensures Views(accounts) == Gathered(Sources(instructions))
    ensures MetaObjects(instructions) <= accounts
    ensures forall i :: |MetaObjects(instructions)| <= i < |accounts| ==> fresh(accounts[i])
    ensures forall a :: a in accounts ==> a in Objects(instructions) || fresh(a)
    ensures |MetaObjects(instructions)| == |Accounts(Sources(instructions))|
    ensures forall a :: a in MetaObjects(instructions) <==> a in Objects(instructions)
  {
    hide Accounts, ProgramIds, Sources, MetaObjects;
    var named, programIds := GatherNamed(instructions);
    ghost var views := Views(named);
    accounts := named;
    for i := 0 to |programIds|
      invariant Views(accounts) == views + ProgramMetas(programIds)[..i]
      invariant named <= accounts
      invariant forall j :: |named| <= j < |accounts| ==> fresh(accounts[j])
    {
      var meta := new AccountMeta(programIds[i], false, false);
      ViewsConcat(accounts, [meta]);
      accounts := accounts + [meta];
    }
  }

  // ---- sorting

  lemma NothingSorted()
    ensures Sorted([]) == [] && Placed([], [], [])
  {}

  /** Every object is where the stable sort puts a meta of its value. */
  ghost predicate Placed(sorted: seq<AccountMeta>, accounts: seq<AccountMeta>, ms: seq<Meta>) {
    && |sorted| == |accounts| == |ms|
    && forall i :: 0 <= i < |ms| ==> Place(ms, i) < |sorted| && sorted[Place(ms, i)] == accounts[i]
  }

  lemma PlacedInsert(sorted: seq<AccountMeta>, accounts: seq<AccountMeta>, ms: seq<Meta>, a: AccountMeta, m: Meta, p: nat)
    requires Placed(sorted, accounts, ms) && p == |UpTo(ms, Rank(m))| <= |sorted|
    ensures Placed(sorted[..p] + [a] + sorted[p..], accounts + [a], ms + [m])
  {
    hide Place, UpTo, Rank;
    LastPlace(ms, m);
    forall i | 0 <= i < |ms|
      ensures Place(ms + [m], i) == if Place(ms, i) < p then Place(ms, i) else Place(ms, i) + 1
    {
      PlaceAfterInsert(ms, m, i);
    }
  }

  method InsertionPoint(a: AccountMeta, sorted: seq<AccountMeta>, ghost ms: seq<Meta>) returns (p: nat)
    requires Views(sorted) == Sorted(ms)
    ensures p <= |Sorted(ms)|
    ensures forall j :: 0 <= j < p ==> Rank(Sorted(ms)[j]) <= Rank(View(a))
    ensures forall j :: p <= j < |Sorted(ms)| ==> Rank(View(a)) < Rank(Sorted(ms)[j])
  {
    hide Sorted, Rank, Less;
    p := |sorted|;
    SortedAscending(ms);
    while p > 0 && Less(View(a), View(sorted[p - 1]))
      invariant 0 <= p <= |sorted|
      invariant forall j :: p <= j < |sorted| ==> Rank(View(a)) < Rank(Sorted(ms)[j])
    {
      LessIsRank(View(a), View(sorted[p - 1]));
      assert Sorted(ms)[p - 1] == View(sorted[p - 1]);
      p := p - 1;
    }
    if p > 0 {
      LessIsRank(View(a), View(sorted[p - 1]));
      assert Sorted(ms)[p - 1] == View(sorted[p - 1]);
    }
  }

  /** sort.SliceStable by AccountMeta.less. */
  method SortStable(accounts: seq<AccountMeta>) returns (sorted: seq<AccountMeta>)
    ensures Views(sorted) == Sorted(Views(accounts))
    ensures forall a :: a in sorted ==> a in accounts
    ensures Placed(sorted, accounts, Views(accounts))
  {
    hide Sorted, Rank, Less, Placed, Place;
    sorted := [];
    ghost var ms := Views(accounts);
    NothingSorted();
    assert ms[..0] == [] && accounts[..0] == [];
    for i := 0 to |accounts|
      invariant ms == Views(accounts) && Views(sorted) == Sorted(ms[..i])
      invariant forall a :: a in sorted ==> a in accounts
      invariant Placed(sorted, accounts[..i], ms[..i])
    {
      var p := InsertionPoint(accounts[i], sorted, ms[..i]);
      assert ms[i] == View(accounts[i]);
      InsertSorted(ms[..i], ms[i], p);
      assert ms[..i + 1] == ms[..i] + [ms[i]];
      ViewsInsert(sorted, accounts[i], p);
      PlacedInsert(sorted, accounts[..i], ms[..i], accounts[i], ms[i], p);
      assert accounts[..i + 1] == accounts[..i] + [accounts[i]];
      sorted := sorted[..p] + [accounts[i]] + sorted[p..];
    }
    assert ms[..|accounts|] == ms && accounts[..|accounts|] == accounts;
  }

  lemma ViewsInsert(sorted: seq<AccountMeta>, a: AccountMeta, p: nat)
    requires p <= |sorted|
    ensures Views(sorted[..p] + [a] + sorted[p..]) == Views(sorted)[..p] + [View(a)] + Views(sorted)[p..]
    ensures forall b :: b in sorted[..p] + [a] + sorted[p..] ==> b == a || b in sorted
  {}

  // ---- merging duplicates

  lemma DistinctStep(ks: seq<PublicKey>, i: nat)
    requires i < |ks|
    ensures Distinct(ks[..i + 1]) == if ks[i] in Distinct(ks[..i]) then Distinct(ks[..i]) else Distinct(ks[..i]) + [ks[i]]
  {
    assert ks[..i + 1][..i] == ks[..i];
  }

  /** The map of the dedup loop finds exactly the keys kept so far. */
  ghost predicate Indexes(index: map<PublicKey, nat>, keys: seq<PublicKey>) {
    && (forall k :: k in index <==> k in keys)
    && (forall k :: k in index ==> index[k] < |keys| && keys[index[k]] == k)
  }

  lemma IndexesAppend(index: map<PublicKey, nat>, keys: seq<PublicKey>, k: PublicKey)
    requires Indexes(index, keys) && k !in keys
    ensures Indexes(index[k := |keys|], keys + [k])
  {}

  /** Each kept object is writable iff a meta of its key seen so far is. */
  ghost predicate FlagsSeen(uniq: seq<AccountMeta>, seen: seq<Meta>)
    reads uniq
  {
    forall j :: 0 <= j < |uniq| ==> uniq[j].isWritable == WritableKey(seen, uniq[j].publicKey)
  }

  lemma FlagsEnd(uniq: seq<AccountMeta>, seen: seq<Meta>)
    requires FlagsSeen(uniq, seen)
    ensures forall j :: 0 <= j < |uniq| ==> uniq[j].isWritable == WritableKey(seen, uniq[j].publicKey)
  {}

  lemma WritableStep(seen: seq<Meta>, m: Meta, k: PublicKey)
    ensures WritableKey(seen + [m], k) <==> WritableKey(seen, k) || (m.key == k && m.writable)
  {}

  lemma FlagsAppend(uniq: seq<AccountMeta>, acc: AccountMeta, seen: seq<Meta>, m: Meta)
    requires FlagsSeen(uniq, seen) && View(acc) == m && !WritableKey(seen, m.key) && m.key !in PublicKeys(uniq)
    ensures FlagsSeen(uniq + [acc], seen + [m])
  {
    forall j | 0 <= j < |uniq| ensures uniq[j].publicKey != m.key {
      assert PublicKeys(uniq)[j] == uniq[j].publicKey;
    }
    forall k ensures WritableKey(seen + [m], k) <==> WritableKey(seen, k) || (m.key == k && m.writable) {
      WritableStep(seen, m, k);
    }
  }

  /** Merging has touched no flag but isWritable of kept objects; vals are the flags before. */
  ghost predicate Spared(sorted: seq<AccountMeta>, uniq: seq<AccountMeta>, vals: seq<Meta>)
    reads sorted
  {
    && |vals| == |sorted|
    && forall j :: 0 <= j < |sorted| ==>
      && sorted[j].isSigner == vals[j].signer
      && sorted[j].publicKey == vals[j].key
      && (sorted[j] !in uniq ==> sorted[j].isWritable == vals[j].writable)
  }

  lemma SparedAt(sorted: seq<AccountMeta>, uniq: seq<AccountMeta>, vals: seq<Meta>, i: nat)
    requires Spared(sorted, uniq, vals) && i < |sorted|
    ensures sorted[i].publicKey == vals[i].key && sorted[i].isSigner == vals[i].signer
    ensures sorted[i] !in uniq ==> View(sorted[i]) == vals[i]
    ensures Spared(sorted, uniq + [sorted[i]], vals)
  {}

  ghost predicate Among(uniq: seq<AccountMeta>, sorted: seq<AccountMeta>) {
    forall a :: a in uniq ==> a in sorted
  }

  lemma AmongAt(uniq: seq<AccountMeta>, sorted: seq<AccountMeta>, at: nat)
    requires Among(uniq, sorted) && at < |uniq|
    ensures uniq[at] in sorted
  {}

  lemma AmongAppend(uniq: seq<AccountMeta>, sorted: seq<AccountMeta>, i: nat)
    requires Among(uniq, sorted) && i < |sorted|
    ensures Among(uniq + [sorted[i]], sorted)
    ensures PublicKeys(uniq + [sorted[i]]) == PublicKeys(uniq) + [sorted[i].publicKey]
  {}

  /** One more meta of a kept key: `acc` may be the kept object itself. */
  method Absorb(kept: AccountMeta, acc: AccountMeta, ghost sorted: seq<AccountMeta>, ghost vals: seq<Meta>,
    ghost uniq: seq<AccountMeta>, ghost at: nat, ghost seen: seq<Meta>, ghost m: Meta)
    requires at < |uniq| && kept == uniq[at] && NoDuplicates(PublicKeys(uniq)) && kept.publicKey == m.key
    requires FlagsSeen(uniq, seen) && Spared(sorted, uniq, vals)
    requires acc !in uniq ==> acc.isWritable == m.writable
    requires acc in uniq ==> acc == kept && (m.writable ==> WritableKey(seen, m.key))
    modifies kept`isWritable
    ensures FlagsSeen(uniq, seen + [m]) && Spared(sorted, uniq, vals)
  {
    forall j | 0 <= j < |uniq| && j != at ensures uniq[j].publicKey != m.key {
      assert PublicKeys(uniq)[j] != PublicKeys(uniq)[at];
    }
    forall k ensures WritableKey(seen + [m], k) <==> WritableKey(seen, k) || (m.key == k && m.writable) {
      WritableStep(seen, m, k);
    }
    kept.isWritable := kept.isWritable || acc.isWritable;
  }

  /** Keep the first object of every key and make it writable if any meta of the key is. */
  method Merge(sorted: seq<AccountMeta>) returns (uniq: seq<AccountMeta>)
    modifies sorted
    ensures PublicKeys(uniq) == Distinct(PublicKeys(sorted))
    ensures forall a :: a in uniq ==> a in sorted
    ensures forall a :: a in sorted ==> a.isSigner == old(a.isSigner)
    ensures forall a :: a in sorted && a !in uniq ==> a.isWritable == old(a.isWritable)
    ensures forall j :: 0 <= j < |uniq| ==>
      && uniq[j].isWritable == WritableKey(old(Views(sorted)), uniq[j].publicKey)
      && uniq[j].publicKey in PublicKeys(sorted)
      && uniq[j] == sorted[First(PublicKeys(sorted), uniq[j].publicKey)]
  {
    hide Merging, PublicKeys;
    var index: map<PublicKey, nat> := map[];
    uniq := [];
    ghost var vals := Views(sorted);
    NothingMerged(sorted);
    for i := 0 to |sorted|
      invariant Merging(index, uniq, sorted, vals, i)
    {
      index, uniq := MergeOne(index, uniq, sorted, vals, i);
    }
    AllMerged(index, uniq, sorted, vals);
    forall a | a in sorted
      ensures a.isSigner == old(a.isSigner) && (a !in uniq ==> a.isWritable == old(a.isWritable))
    {
      var j :| 0 <= j < |sorted| && sorted[j] == a;
      SparedAt(sorted, uniq, vals, j);
      assert vals[j] == old(View(a));
    }
  }

  /** What holds when the first i metas, whose values were vals, have been merged. */
  ghost predicate Merging(index: map<PublicKey, nat>, uniq: seq<AccountMeta>, sorted: seq<AccountMeta>, vals: seq<Meta>, i: nat)
    reads sorted, uniq
  {
    && i <= |sorted| == |vals|
    && Indexes(index, PublicKeys(uniq)) && PublicKeys(uniq) == Distinct(PublicKeys(sorted)[..i])
    && Among(uniq, sorted)
    && Spared(sorted, uniq, vals) && FlagsSeen(uniq, vals[..i])
    && AreFirst(uniq, sorted, i)
    && forall j, k :: 0 <= j < |sorted| && 0 <= k < |sorted| && sorted[j] == sorted[k] ==> vals[j] == vals[k]
  }

  lemma AllMerged(index: map<PublicKey, nat>, uniq: seq<AccountMeta>, sorted: seq<AccountMeta>, vals: seq<Meta>)
    requires Merging(index, uniq, sorted, vals, |sorted|)
    ensures PublicKeys(uniq) == Distinct(PublicKeys(sorted)) && Spared(sorted, uniq, vals)
    ensures forall a :: a in uniq ==> a in sorted
    ensures forall j :: 0 <= j < |uniq| ==>
      && uniq[j].isWritable == WritableKey(vals, uniq[j].publicKey)
      && uniq[j].publicKey in PublicKeys(sorted)
      && uniq[j] == sorted[First(PublicKeys(sorted), uniq[j].publicKey)]
  {
    hide Distinct, WritableKey, Indexes, Spared, PublicKeys, First;
    FirstsEnd(uniq, sorted);
    FlagsEnd(uniq, vals[..|sorted|]);
    assert PublicKeys(sorted)[..|sorted|] == PublicKeys(sorted) && vals[..|sorted|] == vals;
  }

  /** One turn of the loop. */
  method MergeOne(index0: map<PublicKey, nat>, uniq0: seq<AccountMeta>, sorted: seq<AccountMeta>, ghost vals: seq<Meta>, i: nat)
    returns (index: map<PublicKey, nat>, uniq: seq<AccountMeta>)
    requires i < |sorted| && Merging(index0, uniq0, sorted, vals, i)
    modifies sorted
    ensures Merging(index, uniq, sorted, vals, i + 1)
  {
    hide Merging;
    index, uniq := index0, uniq0;
    var acc := sorted[i];
    if acc.publicKey in index {
      IndexWithin(index, uniq, sorted, vals, i);
      MergeFound(index, uniq, sorted, vals, i);
    } else {
      MergeNew(index, uniq, sorted, vals, i);
      index := index[acc.publicKey := |uniq|];
      uniq := uniq + [acc];
    }
  }

  lemma IndexWithin(index: map<PublicKey, nat>, uniq: seq<AccountMeta>, sorted: seq<AccountMeta>, vals: seq<Meta>, i: nat)
    requires Merging(index, uniq, sorted, vals, i)
    ensures forall k :: k in index ==> index[k] < |uniq|
  {}

  lemma MergeNew(index: map<PublicKey, nat>, uniq: seq<AccountMeta>, sorted: seq<AccountMeta>, vals: seq<Meta>, i: nat)
    requires i < |sorted| && Merging(index, uniq, sorted, vals, i) && sorted[i].publicKey !in index
    ensures Merging(index[sorted[i].publicKey := |uniq|], uniq + [sorted[i]], sorted, vals, i + 1)
  {
    hide Distinct, WritableKey, Indexes, First, AreFirst, Keys, FlagsSeen, Spared, PublicKeys, Among;
    var acc := sorted[i];
    DistinctStep(PublicKeys(sorted), i);
    assert vals[..i + 1] == vals[..i] + [vals[i]];
    MemberOf(index, PublicKeys(uniq), acc.publicKey);
    SparedAt(sorted, uniq, vals, i);
    IndexesAppend(index, PublicKeys(uniq), acc.publicKey);
    FirstAppended(uniq, sorted, i);
    KeysOfVals(sorted, uniq, vals);
    NotWritableYet(vals, i);
    FlagsAppend(uniq, acc, vals[..i], vals[i]);
    AmongAppend(uniq, sorted, i);
  }

  method MergeFound(index: map<PublicKey, nat>, uniq: seq<AccountMeta>, sorted: seq<AccountMeta>, ghost vals: seq<Meta>, i: nat)
    requires i < |sorted| && Merging(index, uniq, sorted, vals, i) && sorted[i].publicKey in index
    requires index[sorted[i].publicKey] < |uniq|
    modifies sorted
    ensures Merging(index, uniq, sorted, vals, i + 1)
  {
    hide Distinct, WritableKey, Indexes, First, AreFirst, Keys, FlagsSeen, Spared, PublicKeys, Among;
    var acc := sorted[i];
    var at := index[acc.publicKey];
    DistinctStep(PublicKeys(sorted), i);
    assert vals[..i + 1] == vals[..i] + [vals[i]];
    MemberOf(index, PublicKeys(uniq), acc.publicKey);
    SparedAt(sorted, uniq, vals, i);
    ghost var f := FirstOf(uniq, sorted, i, at);
    SparedAt(sorted, uniq, vals, f);
    SameKeySameObject(uniq, acc, at);
    WritableAt(vals, i, f);
    FirstStays(uniq, sorted, i);
    AmongAt(uniq, sorted, at);
    Absorb(uniq[at], acc, sorted, vals, uniq, at, vals[..i], vals[i]);
  }

  lemma KeysOfVals(sorted: seq<AccountMeta>, uniq: seq<AccountMeta>, vals: seq<Meta>)
    requires Spared(sorted, uniq, vals)
    ensures Keys(vals) == PublicKeys(sorted)
  {}

  lemma NothingMerged(sorted: seq<AccountMeta>)
    ensures Merging(map[], [], sorted, Views(sorted), 0)
  {}

  lemma MemberOf(index: map<PublicKey, nat>, keys: seq<PublicKey>, k: PublicKey)
    requires Indexes(index, keys)
    ensures k in index <==> k in keys
    ensures k in index ==> index[k] < |keys| && keys[index[k]] == k
  {}

  lemma SameKeySameObject(uniq: seq<AccountMeta>, acc: AccountMeta, at: nat)
    requires at < |uniq| && uniq[at].publicKey == acc.publicKey && NoDuplicates(PublicKeys(uniq))
    ensures acc in uniq ==> acc == uniq[at]
  {
    if acc in uniq {
      var j :| 0 <= j < |uniq| && uniq[j] == acc;
      assert PublicKeys(uniq)[j] == PublicKeys(uniq)[at];
    }
  }

  lemma WritableAt(vals: seq<Meta>, i: nat, f: nat)
    requires f < i <= |vals|
    ensures vals[f].writable ==> WritableKey(vals[..i], vals[f].key)
  {
    assert vals[..i][f] == vals[f];
  }

  lemma FirstHere(sorted: seq<AccountMeta>, i: nat)
    requires i < |sorted| && sorted[i].publicKey !in Distinct(PublicKeys(sorted)[..i])
    ensures sorted[i].publicKey in PublicKeys(sorted) && First(PublicKeys(sorted), sorted[i].publicKey) == i
  {
    var keys := PublicKeys(sorted);
    assert keys[i] in keys && forall j :: 0 <= j < i ==> keys[j] in keys[..i];
  }

  /** The kept objects are the first of their keys, all before position i. */
  ghost predicate AreFirst(uniq: seq<AccountMeta>, sorted: seq<AccountMeta>, i: nat) {
    forall j :: 0 <= j < |uniq| ==>
      && uniq[j].publicKey in PublicKeys(sorted) && First(PublicKeys(sorted), uniq[j].publicKey) < i
      && uniq[j] == sorted[First(PublicKeys(sorted), uniq[j].publicKey)]
  }

  lemma FirstOf(uniq: seq<AccountMeta>, sorted: seq<AccountMeta>, i: nat, at: nat) returns (f: nat)
    requires AreFirst(uniq, sorted, i) && at < |uniq|
    ensures f < i && f < |sorted| && sorted[f] == uniq[at]
  {
    f := First(PublicKeys(sorted), uniq[at].publicKey);
  }

  lemma FirstAppended(uniq: seq<AccountMeta>, sorted: seq<AccountMeta>, i: nat)
    requires AreFirst(uniq, sorted, i) && i < |sorted|
    requires sorted[i].publicKey !in Distinct(PublicKeys(sorted)[..i])
    ensures AreFirst(uniq + [sorted[i]], sorted, i + 1)
  {
    FirstHere(sorted, i);
  }

  lemma FirstStays(uniq: seq<AccountMeta>, sorted: seq<AccountMeta>, i: nat)
    requires AreFirst(uniq, sorted, i)
    ensures AreFirst(uniq, sorted, i + 1)
  {}

  lemma FirstsEnd(uniq: seq<AccountMeta>, sorted: seq<AccountMeta>)
    requires AreFirst(uniq, sorted, |sorted|)
    ensures forall j :: 0 <= j < |uniq| ==>
      && uniq[j].publicKey in PublicKeys(sorted)
      && uniq[j] == sorted[First(PublicKeys(sorted), uniq[j].publicKey)]
  {}

  lemma NotWritableYet(vals: seq<Meta>, i: nat)
    requires i < |vals| && vals[i].key !in Distinct(Keys(vals)[..i])
    ensures !WritableKey(vals[..i], vals[i].key)
  {
    assert forall j :: 0 <= j < i ==> Keys(vals)[..i][j] == vals[j].key;
  }

  /** After merging, the kept objects carry everything their keys' metas asked for. */
  lemma MergedViews(uniq: seq<AccountMeta>, ms: seq<Meta>)
    requires PublicKeys(uniq) == Distinct(Keys(Sorted(ms)))
    requires forall j :: 0 <= j < |uniq| ==>
      && uniq[j].isWritable == WritableKey(Sorted(ms), uniq[j].publicKey)
      && uniq[j].publicKey in SortedKeys(ms)
      && uniq[j].isSigner == Leader(ms, uniq[j].publicKey).signer
    ensures Views(uniq) == Merged(ms)
  {
    SortedMembers(ms);
    forall j | 0 <= j < |uniq| ensures View(uniq[j]) == MergedMeta(ms, uniq[j].publicKey) {
      LeaderFlags(ms, uniq[j].publicKey);
    }
  }

  // ---- the fee payer

  function WithoutMeta(u: seq<Meta>, payer: PublicKey): seq<Meta> {
    if u == [] then [] else
      var last := |u| - 1;
      var r := WithoutMeta(u[..last], payer);
      if u[last].key == payer then r else r + [u[last]]
  }

  lemma {:induction false} WithoutCommutes(ms: seq<Meta>, payer: PublicKey, ks: seq<PublicKey>)
    ensures WithoutMeta(MergeAll(ms, ks), payer) == FinalAll(ms, payer, Without(ks, payer))
  {
    if ks != [] {
      var last := |ks| - 1;
      WithoutCommutes(ms, payer, ks[..last]);
      assert MergeAll(ms, ks)[..last] == MergeAll(ms, ks[..last]);
    }
  }

  lemma FinalFromMerged(ms: seq<Meta>, payer: PublicKey)
    ensures [Meta(payer, true, true)] + WithoutMeta(Merged(ms), payer) == Final(ms, payer)
  {
    var ks := Distinct(Keys(Sorted(ms)));
    WithoutCommutes(ms, payer, ks);
    assert FinalKeys(ms, payer) == [payer] + Without(ks, payer);
    assert FinalAll(ms, payer, [payer] + Without(ks, payer))
        == [FinalMeta(ms, payer, payer)] + FinalAll(ms, payer, Without(ks, payer));
  }

  lemma WithoutStart(u: seq<Meta>, payer: PublicKey)
    ensures WithoutMeta(u[..0], payer) == []
  {}

  lemma WithoutStep(u: seq<Meta>, payer: PublicKey, i: nat)
    requires i < |u|
    ensures WithoutMeta(u[..i + 1], payer) == WithoutMeta(u[..i], payer) + if u[i].key == payer then [] else [u[i]]
  {
    assert u[..i + 1][..i] == u[..i];
  }

  /** The place of the payer, or -1. */
  method FindPayer(uniq: seq<AccountMeta>, payer: PublicKey) returns (feePayerIndex: int)
    requires NoDuplicates(PublicKeys(uniq))
    ensures -1 <= feePayerIndex < |uniq|
    ensures forall j :: 0 <= j < |uniq| ==> (uniq[j].publicKey == payer <==> j == feePayerIndex)
  {
    feePayerIndex := -1;
    for idx := 0 to |uniq|
      invariant -1 <= feePayerIndex < idx
      invariant feePayerIndex >= 0 ==> uniq[feePayerIndex].publicKey == payer
      invariant feePayerIndex < 0 ==> forall j :: 0 <= j < idx ==> uniq[j].publicKey != payer
    {
      if uniq[idx].publicKey == payer {
        feePayerIndex := idx;
      }
    }
    forall j | 0 <= j < |uniq| ensures uniq[j].publicKey == payer <==> j == feePayerIndex {
      assert feePayerIndex >= 0 && j != feePayerIndex ==> PublicKeys(uniq)[j] != PublicKeys(uniq)[feePayerIndex];
    }
  }

  /** All but the payer's account, which is made a writable signer. */
  method Others(uniq: seq<AccountMeta>, payer: PublicKey, feePayerIndex: int) returns (others: seq<AccountMeta>)
    requires -1 <= feePayerIndex < |uniq|
    requires forall j :: 0 <= j < |uniq| ==> (uniq[j].publicKey == payer <==> j == feePayerIndex)
    modifies uniq
    ensures forall a :: a in uniq ==>
      View(a) == if a.publicKey == payer then Meta(payer, true, true) else old(View(a))
    ensures Views(others) == WithoutMeta(old(Views(uniq)), payer)
  {
    hide WithoutMeta;
    ghost var views := Views(uniq);
    others := [];
    WithoutStart(views, payer);
    for idx := 0 to |uniq|
      invariant forall j :: 0 <= j < |uniq| && j != feePayerIndex ==> View(uniq[j]) == views[j]
      invariant 0 <= feePayerIndex < idx ==> View(uniq[feePayerIndex]) == Meta(payer, true, true)
      invariant forall a :: a in others ==> a in uniq && a.publicKey != payer
      invariant Views(others) == WithoutMeta(views[..idx], payer)
    {
      WithoutStep(views, payer, idx);
      if idx == feePayerIndex {
        uniq[idx].isSigner := true;
        uniq[idx].isWritable := true;
      } else {
        ViewsConcat(others, [uniq[idx]]);
        others := others + [uniq[idx]];
      }
    }
    assert views[..|uniq|] == views;
    forall a | a in uniq
      ensures View(a) == if a.publicKey == payer then Meta(payer, true, true) else old(View(a))
    {
      var j :| 0 <= j < |uniq| && uniq[j] == a;
    }
  }

  /** Move the fee payer's account to the front, adding it if no instruction names it. */
  method PlacePayer(uniq: seq<AccountMeta>, payer: PublicKey) returns (final: seq<AccountMeta>)
    requires NoDuplicates(PublicKeys(uniq))
    modifies uniq
    ensures Views(final) == [Meta(payer, true, true)] + WithoutMeta(old(Views(uniq)), payer)
    ensures forall a :: a in uniq ==>
      View(a) == if a.publicKey == payer then Meta(payer, true, true) else old(View(a))
  {
    hide WithoutMeta, NoDuplicates, PublicKeys, Views;
    var feePayerIndex := FindPayer(uniq, payer);
    var others := Others(uniq, payer, feePayerIndex);
    var first: AccountMeta;
    if feePayerIndex < 0 {
      first := new AccountMeta(payer, true, true);
    } else {
      first := uniq[feePayerIndex];
    }
    ViewsCons(first, others);
    final := [first] + others;
  }

  // ---- the message

  lemma CountStep(bs: seq<bool>, i: nat)
    requires i < |bs|
    ensures Count(bs[..i + 1]) == Count(bs[..i]) + if bs[i] then 1 else 0
  {
    assert bs[..i + 1][..i] == bs[..i];
  }

  lemma PositionStep(ks: seq<PublicKey>, i: nat)
    requires i < |ks|
    ensures forall k :: Position(ks[..i + 1], k) == if k == ks[i] then i else Position(ks[..i], k)
  {
    var p := ks[..i + 1];
    assert |p| - 1 == i && p[|p| - 1] == ks[i] && p[..|p| - 1] == ks[..i];
    forall k ensures Position(p, k) == if k == ks[i] then i else Position(ks[..i], k) {
      assert Position(p, k) == if p[|p| - 1] == k then |p| - 1 else Position(p[..|p| - 1], k);
    }
  }

  /** An unsigned byte counter. */
  function Byte(c: nat): (b: nat)
    ensures b < 256
  {
    c % 256
  }

  lemma ByteNext(c: nat)
    ensures (Byte(c) + 1) % 256 == Byte(c + 1)
  {}

  /** accountKeyIndex: the 16-bit position of every key. */
  ghost predicate Points(index: map<PublicKey, nat>, keys: seq<PublicKey>) {
    forall k :: k in keys ==> k in index && index[k] == IndexOf(keys, k)
  }

  lemma IndexStep(index: map<PublicKey, nat>, all: seq<PublicKey>, i: nat)
    requires i < |all| && Points(index, all[..i])
    ensures Points(index[all[i] := i % 0x1_0000], all[..i + 1])
  {
    PositionStep(all, i);
    assert all[..i + 1] == all[..i] + [all[i]];
  }

  method CountHeader(final: seq<AccountMeta>) returns (header: Header, keys: seq<PublicKey>, index: map<PublicKey, nat>)
    ensures header == HeaderOf(Views(final)) && keys == Keys(Views(final))
    ensures Points(index, keys)
  {
    hide Count, Points, Byte;
    var required, readonlySigned, readonlyUnsigned := 0, 0, 0;
    keys, index := [], map[];
    ghost var f := Views(final);
    ghost var all, signers, rs, ro := Keys(f), Signers(f), ReadonlySigners(f), ReadonlyOthers(f);
    NothingCounted();
    assert signers[..0] == [] && rs[..0] == [] && ro[..0] == [];
    for i := 0 to |final|
      invariant keys == all[..i]
      invariant required == Byte(Count(signers[..i]))
      invariant readonlySigned == Byte(Count(rs[..i])) && readonlyUnsigned == Byte(Count(ro[..i]))
      invariant Points(index, keys)
    {
      var acc := final[i];
      CountStep(signers, i);
      CountStep(rs, i);
      CountStep(ro, i);
      ByteNext(Count(signers[..i]));
      ByteNext(Count(rs[..i]));
      ByteNext(Count(ro[..i]));
      assert all[..i + 1] == keys + [acc.publicKey] && acc.publicKey == all[i];
      IndexStep(index, all, i);
      keys := keys + [acc.publicKey];
      index := index[acc.publicKey := i % 0x1_0000];
      if acc.isSigner {
        required := (required + 1) % 256;
        if !acc.isWritable {
          readonlySigned := (readonlySigned + 1) % 256;
        }
      } else if !acc.isWritable {
        readonlyUnsigned := (readonlyUnsigned + 1) % 256;
      }
    }
    assert all[..|final|] == all && signers[..|final|] == signers && rs[..|final|] == rs && ro[..|final|] == ro;
    header := Header(required as byte, readonlySigned as byte, readonlyUnsigned as byte);
    HeaderBytes(f);
  }

  lemma HeaderBytes(f: seq<Meta>)
    ensures HeaderOf(f) == Header(Byte(Count(Signers(f))) as byte, Byte(Count(ReadonlySigners(f))) as byte,
                                  Byte(Count(ReadonlyOthers(f))) as byte)
  {}

  lemma NothingCounted()
    ensures Count([]) == 0 && Byte(0) == 0 && Points(map[], [])
  {}

  /** The sources are the instructions' own, and every key they mention is listed. */
  ghost predicate Named(instructions: seq<Instruction>, sources: seq<Source>, keys: seq<PublicKey>) {
    && |sources| == |instructions|
    && forall i :: 0 <= i < |sources| ==>
         && sources[i].program == instructions[i].programId && sources[i].data == Data(instructions[i])
         && Keys(sources[i].accounts) == PublicKeys(instructions[i].accounts)
         && sources[i].program in keys && forall m :: m in sources[i].accounts ==> m.key in keys
  }

  method IndexAccounts(accounts: seq<AccountMeta>, ghost source: Source, keys: seq<PublicKey>, index: map<PublicKey, nat>)
    returns (accountIndex: seq<nat>)
    requires Points(index, keys) && Keys(source.accounts) == PublicKeys(accounts)
    requires forall m :: m in source.accounts ==> m.key in keys
    ensures accountIndex == CompileOne(keys, source).accounts
  {
    accountIndex := [];
    for idx := 0 to |accounts|
      invariant accountIndex == CompileOne(keys, source).accounts[..idx]
    {
      assert source.accounts[idx] in source.accounts;
      assert Keys(source.accounts)[idx] == PublicKeys(accounts)[idx];
      accountIndex := accountIndex + [index[accounts[idx].publicKey]];
    }
  }

  method CompileInstructions(instructions: seq<Instruction>, ghost sources: seq<Source>, keys: seq<PublicKey>, index: map<PublicKey, nat>)
    returns (failed: nat, compiled: seq<Compiled>)
    requires Named(instructions, sources, keys)
    requires Points(index, keys)
    ensures failed == FirstFailing(instructions)
    ensures failed == |instructions| ==> compiled == CompileAll(keys, sources)
  {
    compiled := [];
    for i := 0 to |instructions|
      invariant forall j :: 0 <= j < i ==> instructions[j].data.Some?
      invariant compiled == CompileAll(keys, sources)[..i]
    {
      var accountIndex := IndexAccounts(instructions[i].accounts, sources[i], keys, index);
      assert CompileAll(keys, sources)[i] == CompileOne(keys, sources[i]);
      if instructions[i].data.None? {
        return i, compiled;
      }
      compiled := compiled + [Compiled(index[instructions[i].programId], accountIndex, instructions[i].data.value)];
    }
    failed := |instructions|;
  }

  method ChooseFeePayer(accounts: seq<AccountMeta>, payer: PublicKey) returns (found: bool, feePayer: PublicKey)
    ensures found <==> !IsZero(payer) || FirstSigner(Views(accounts)) < |accounts|
    ensures found ==> feePayer == if IsZero(payer) then Views(accounts)[FirstSigner(Views(accounts))].key else payer
  {
    feePayer := payer;
    if !IsZero(payer) {
      return true, payer;
    }
    for i := 0 to |accounts|
      invariant forall j :: 0 <= j < i ==> !Views(accounts)[j].signer
    {
      if accounts[i].isSigner {
        assert i == FirstSigner(Views(accounts));
        return true, accounts[i].publicKey;
      }
    }
    found := false;
  }

  /** The object is the first of least rank among the metas gathered for its key. */
  ghost predicate IsLeader(instructions: seq<Instruction>, ms: seq<Meta>, a: AccountMeta) {
    && HasKey(ms, a.publicKey)
    && LeaderIndex(ms, a.publicKey) < |MetaObjects(instructions)|
    && MetaObjects(instructions)[LeaderIndex(ms, a.publicKey)] == a
  }

  lemma LeadersAreFirst(accounts: seq<AccountMeta>, sorted: seq<AccountMeta>, ms: seq<Meta>)
    requires Views(sorted) == Sorted(ms) && Placed(sorted, accounts, ms)
    ensures PublicKeys(sorted) == SortedKeys(ms)
    ensures forall k :: k in SortedKeys(ms) ==>
      && sorted[First(SortedKeys(ms), k)].isSigner == Leader(ms, k).signer
      && HasKey(ms, k) && sorted[First(SortedKeys(ms), k)] == accounts[LeaderIndex(ms, k)]
  {
    hide First, Sorted, Place, LeaderIndex;
    forall k | k in SortedKeys(ms)
      ensures HasKey(ms, k) && sorted[First(SortedKeys(ms), k)] == accounts[LeaderIndex(ms, k)]
    {
      KeysOfSorted(ms, k);
      LeaderPlace(ms, k);
    }
  }

  /** The gathered objects, of which the callers' come first, in the order of the sort. */
  ghost predicate Ordered(instructions: seq<Instruction>, ms: seq<Meta>, accounts: seq<AccountMeta>, sorted: seq<AccountMeta>) {
    && MetaObjects(instructions) <= accounts && |accounts| == |ms|
    && PublicKeys(accounts) == Keys(ms) && PublicKeys(sorted) == SortedKeys(ms)
    && (forall i :: |MetaObjects(instructions)| <= i < |accounts| ==> accounts[i] !in Objects(instructions))
    && (forall k :: k in SortedKeys(ms) ==>
         HasKey(ms, k) && sorted[First(SortedKeys(ms), k)] == accounts[LeaderIndex(ms, k)])
  }

  method Arrange(instructions: seq<Instruction>, ghost ms: seq<Meta>) returns (ghost accounts: seq<AccountMeta>, sorted: seq<AccountMeta>)
    requires ms == Gathered(Sources(instructions))
    ensures Views(sorted) == Sorted(ms) && Ordered(instructions, ms, accounts, sorted)
    ensures forall k :: k in SortedKeys(ms) ==> sorted[First(SortedKeys(ms), k)].isSigner == Leader(ms, k).signer
    ensures forall a :: a in sorted ==> a in Objects(instructions) || fresh(a)
  {
    hide Gathered, Sources, Sorted, Leader, LeaderIndex, Placed, First, MetaObjects;
    var gathered := Gather(instructions);
    sorted := SortStable(gathered);
    LeadersAreFirst(gathered, sorted, ms);
    accounts := gathered;
  }

  /** Gathering, sorting and merging: of the callers' metas the leaders are kept, and no other changes. */
  method MergedAccounts(instructions: seq<Instruction>, ghost ms: seq<Meta>) returns (uniq: seq<AccountMeta>)
    requires ms == Gathered(Sources(instructions))
    modifies Objects(instructions)
    ensures Views(uniq) == Merged(ms) && PublicKeys(uniq) == Distinct(SortedKeys(ms))
    ensures forall a :: a in uniq ==> a in Objects(instructions) || fresh(a)
    ensures forall a :: a in Objects(instructions) ==> (a in uniq <==> IsLeader(instructions, ms, a))
    ensures forall a :: a in Objects(instructions) && a !in uniq ==> View(a) == old(View(a))
    ensures forall a :: a in uniq ==> View(a) == MergedMeta(ms, a.publicKey)
  {
    hide Gathered, Sources, Sorted, Merged, Leader, LeaderIndex, First, WritableKey, SignerKey, Views, Distinct,
      IsLeader, Ordered;
    ghost var accounts;
    var sorted;
    accounts, sorted := Arrange(instructions, ms);
    SortedFirst(instructions, ms, accounts, sorted);
    WritableSorted(ms);
    uniq := Merge(sorted);
    MergedViews(uniq, ms);
    MergedAt(uniq, ms);
    KeptAreLeaders(instructions, accounts, sorted, uniq, ms);
  }

  lemma SortedFirst(instructions: seq<Instruction>, ms: seq<Meta>, accounts: seq<AccountMeta>, sorted: seq<AccountMeta>)
    requires Ordered(instructions, ms, accounts, sorted)
    ensures PublicKeys(sorted) == SortedKeys(ms)
  {}

  lemma MergedAt(uniq: seq<AccountMeta>, ms: seq<Meta>)
    requires Views(uniq) == Merged(ms)
    ensures forall a :: a in uniq ==> View(a) == MergedMeta(ms, a.publicKey)
  {
    hide MergedMeta;
    var ks := Distinct(Keys(Sorted(ms)));
    forall a | a in uniq ensures View(a) == MergedMeta(ms, a.publicKey) {
      var j :| 0 <= j < |uniq| && uniq[j] == a;
      assert View(a) == Views(uniq)[j] == MergedMeta(ms, ks[j]);
      KeyOfMerged(ms, ks[j]);
    }
  }

  lemma KeyOfMerged(ms: seq<Meta>, k: PublicKey)
    ensures MergedMeta(ms, k).key == k
    ensures forall payer ::
      FinalMeta(ms, payer, k) == if k == payer then Meta(k, true, true) else MergedMeta(ms, k)
  {}

  lemma KeptAreLeaders(instructions: seq<Instruction>, accounts: seq<AccountMeta>, sorted: seq<AccountMeta>, uniq: seq<AccountMeta>, ms: seq<Meta>)
    requires Ordered(instructions, ms, accounts, sorted) && PublicKeys(uniq) == Distinct(SortedKeys(ms))
    requires forall j :: 0 <= j < |uniq| ==>
      uniq[j].publicKey in SortedKeys(ms) && uniq[j] == sorted[First(SortedKeys(ms), uniq[j].publicKey)]
    ensures forall a :: a in Objects(instructions) ==> (a in uniq <==> IsLeader(instructions, ms, a))
  {
    hide LeaderIndex, Distinct, SortedKeys, First, IsLeader, Ordered;
    forall a | a in Objects(instructions) ensures a in uniq <==> IsLeader(instructions, ms, a) {
      KeptIsLeader(instructions, accounts, sorted, uniq, ms, a);
    }
  }

  lemma KeptIsLeader(instructions: seq<Instruction>, accounts: seq<AccountMeta>, sorted: seq<AccountMeta>, uniq: seq<AccountMeta>, ms: seq<Meta>, a: AccountMeta)
    requires Ordered(instructions, ms, accounts, sorted) && PublicKeys(uniq) == Distinct(SortedKeys(ms))
    requires forall j :: 0 <= j < |uniq| ==>
      uniq[j].publicKey in SortedKeys(ms) && uniq[j] == sorted[First(SortedKeys(ms), uniq[j].publicKey)]
    requires a in Objects(instructions)
    ensures a in uniq <==> IsLeader(instructions, ms, a)
  {
    hide LeaderIndex, Distinct, SortedKeys, MetaObjects;
    ObjectsAreNamed(instructions);
    assert a in MetaObjects(instructions);
    var i :| 0 <= i < |MetaObjects(instructions)| && MetaObjects(instructions)[i] == a;
    assert accounts[i] == a && Keys(ms)[i] == ms[i].key == a.publicKey && ms[i] in ms;
    KeyIsSorted(ms, a.publicKey);
    if a in uniq {
      var j :| 0 <= j < |uniq| && uniq[j] == a;
    }
    if IsLeader(instructions, ms, a) {
      assert a.publicKey in PublicKeys(uniq);
      var j :| 0 <= j < |uniq| && PublicKeys(uniq)[j] == a.publicKey;
      assert uniq[j] == a;
    }
  }

  lemma KeyIsSorted(ms: seq<Meta>, k: PublicKey)
    ensures k in Distinct(SortedKeys(ms)) <==> HasKey(ms, k)
  {
    KeysOfSorted(ms, k);
  }

  lemma WritableSorted(ms: seq<Meta>)
    ensures forall k :: WritableKey(Sorted(ms), k) <==> WritableKey(ms, k)
  {
    SortedMembers(ms);
  }

  lemma CompileIs(sources: seq<Source>, blockhash: PublicKey, payer: PublicKey, feePayer: PublicKey)
    requires sources != []
    requires !IsZero(payer) || FirstSigner(sources[0].accounts) < |sources[0].accounts|
    requires feePayer == if IsZero(payer) then sources[0].accounts[FirstSigner(sources[0].accounts)].key else payer
    ensures Compile(sources, blockhash, payer) == Done(MessageFor(sources, blockhash, feePayer))
    ensures var m := MessageFor(sources, blockhash, feePayer);
            |m.keys| > 0 && m.keys[0] == feePayer && m.blockhash == blockhash
  {
    KeysOfFinal(Gathered(sources), feePayer);
  }

  lemma KeysAvailable(instructions: seq<Instruction>, sources: seq<Source>, feePayer: PublicKey)
    requires sources == Sources(instructions)
    ensures Named(instructions, sources, FinalKeys(Gathered(sources), feePayer))
  {
    forall i | 0 <= i < |sources|
      ensures sources[i] == SourceOf(instructions[i])
      ensures var keys := FinalKeys(Gathered(sources), feePayer);
              sources[i].program in keys && forall m :: m in sources[i].accounts ==> m.key in keys
    {
      SourceKeysPresent(sources, feePayer, i);
    }
  }

  lemma {:induction false} ObjectsAreNamed(instructions: seq<Instruction>)
    ensures forall a :: a in MetaObjects(instructions) <==> a in Objects(instructions)
  {
    if instructions != [] {
      var last := |instructions| - 1;
      ObjectsAreNamed(instructions[..last]);
      ObjectsStep(instructions, last);
      assert instructions[..last + 1] == instructions;
    }
  }

  lemma {:induction false} ViewsOfNamed(instructions: seq<Instruction>)
    ensures Views(MetaObjects(instructions)) == Accounts(Sources(instructions))
  {
    hide Objects;
    if instructions != [] {
      var last := |instructions| - 1;
      ViewsOfNamed(instructions[..last]);
      ViewsConcat(MetaObjects(instructions[..last]), instructions[last].accounts);
      assert Sources(instructions)[..last] == Sources(instructions[..last]);
    }
  }

  /** Leaders take the message's flags and the rest theirs from before: nothing has changed if and only if
      nothing is raised. */
  lemma RaisedExactly(instructions: seq<Instruction>, sources: seq<Source>, payer: PublicKey, before: seq<Meta>)
    requires before == Accounts(sources) && |before| == |MetaObjects(instructions)|
    requires var ms, objects := Gathered(sources), MetaObjects(instructions);
             && (forall i :: 0 <= i < |objects| ==> before[i].key == objects[i].publicKey)
             && (forall i, j :: 0 <= i < |objects| && 0 <= j < |objects| && objects[i] == objects[j] ==> before[i] == before[j])
             && (forall i :: 0 <= i < |objects| ==>
                  View(objects[i]) == if IsLeader(instructions, ms, objects[i]) then FinalMeta(ms, payer, objects[i].publicKey) else before[i])
    ensures (forall i :: 0 <= i < |before| ==> View(MetaObjects(instructions)[i]) == before[i]) <==>
      NothingRaised(sources, payer)
  {
    hide MetaObjects, Accounts, NothingRaised, FinalMeta, LeaderIndex;
    var ms, objects := Gathered(sources), MetaObjects(instructions);
    LeadersKeptExactly(sources, payer);
    assert forall i :: 0 <= i < |before| ==> ms[i] == before[i] && ms[i] in ms;
    if forall i :: 0 <= i < |before| ==> View(objects[i]) == before[i] {
      forall i | 0 <= i < |before| && Leads(ms, i) ensures FinalMeta(ms, payer, ms[i].key) == ms[i] {
        assert IsLeader(instructions, ms, objects[i]);
      }
    }
    if LeadersKept(ms, |before|, payer) {
      forall i | 0 <= i < |before| ensures View(objects[i]) == before[i] {
        if IsLeader(instructions, ms, objects[i]) {
          var l := LeaderIndex(ms, objects[i].publicKey);
          assert Leads(ms, l);
        }
      }
    }
  }

  /** The callers' metas after a compilation for ms and payer: a leader is as the message has its key, and
      every other is as it was. */
  twostate predicate Raised(instructions: seq<Instruction>, ms: seq<Meta>, payer: PublicKey)
    reads Objects(instructions)
  {
    forall a :: a in Objects(instructions) ==>
      View(a) == if IsLeader(instructions, ms, a) then FinalMeta(ms, payer, a.publicKey) else old(View(a))
  }

  /** Gathering to placing the fee payer: the message's accounts, and what that does to the callers' metas. */
  method FinalAccounts(instructions: seq<Instruction>, ghost sources: seq<Source>, feePayer: PublicKey)
    returns (final: seq<AccountMeta>)
    requires sources == Sources(instructions)
    modifies Objects(instructions)
    ensures Views(final) == Final(Gathered(sources), feePayer)
    ensures Raised(instructions, Gathered(sources), feePayer)
    ensures (forall a :: a in Objects(instructions) ==> View(a) == old(View(a))) <==> NothingRaised(sources, feePayer)
  {
    hide Gathered, Sources, Final, Merged, WithoutMeta, SortedKeys, IsLeader, FinalMeta, MergedMeta, NothingRaised,
      MetaObjects, Accounts;
    ghost var ms := Gathered(sources);
    ghost var before := Views(MetaObjects(instructions));
    ViewsOfNamed(instructions);
    ObjectsAreNamed(instructions);
    var uniq := MergedAccounts(instructions, ms);
    final := PlacePayer(uniq, feePayer);
    FinalFromMerged(ms, feePayer);
    forall a | a in Objects(instructions)
      ensures View(a) == if IsLeader(instructions, ms, a) then FinalMeta(ms, feePayer, a.publicKey) else old(View(a))
    {
      KeyOfMerged(ms, a.publicKey);
    }
    RaisedExactly(instructions, sources, feePayer, before);
  }

  /** From the placed accounts to the message. */
  method Assemble(final: seq<AccountMeta>, instructions: seq<Instruction>, ghost sources: seq<Source>, blockhash: PublicKey, ghost feePayer: PublicKey)
    returns (r: Result)
    requires Views(final) == Final(Gathered(sources), feePayer)
    requires Named(instructions, sources, FinalKeys(Gathered(sources), feePayer))
    ensures var failed := FirstFailing(instructions);
            r == if failed < |instructions| then DataFailed(failed) else Done(MessageFor(sources, blockhash, feePayer))
  {
    hide Gathered, Final, HeaderOf, CompileAll, Named, FirstFailing;
    KeysOfFinal(Gathered(sources), feePayer);
    var header, keys, index := CountHeader(final);
    var failed, compiled := CompileInstructions(instructions, sources, keys, index);
    if failed < |instructions| {
      return DataFailed(failed);
    }
    return Done(Message(header, keys, blockhash, compiled));
  }

  /** NewTransaction. Merging works on the callers' own meta objects: those that lead their keys take the
      flags of the message, also when some instruction's data then fails to encode. They are all as before
      if and only if no key is promoted and the fee payer, if named, is so as a writable signer. */
  method NewTransaction(instructions: seq<Instruction>, blockhash: PublicKey, payer: PublicKey) returns (r: Result)
    modifies Objects(instructions)
    ensures var sources, failed := old(Sources(instructions)), FirstFailing(instructions);
            var compiled := Compile(sources, blockhash, payer);
            && r == (if compiled.Done? && failed < |instructions| then DataFailed(failed) else compiled)
            && (!compiled.Done? ==> forall a :: a in Objects(instructions) ==> unchanged(a))
            && (compiled.Done? ==>
                 && |compiled.message.keys| > 0 && compiled.message.blockhash == blockhash
                 && Raised(instructions, Gathered(sources), compiled.message.keys[0])
                 && ((forall a :: a in Objects(instructions) ==> View(a) == old(View(a))) <==>
                      NothingRaised(sources, compiled.message.keys[0])))
  {
    hide Gathered, Sources, Final, FinalKeys, Compile, MessageFor, Named, FirstFailing, NothingRaised, IsLeader, FinalMeta;
    if instructions == [] {
      NoSources(instructions, blockhash, payer);
      return NoInstructions;
    }
    ghost var sources := Sources(instructions);
    assert sources[0].accounts == Views(instructions[0].accounts);
    var found, feePayer := ChooseFeePayer(instructions[0].accounts, payer);
    if !found {
      NoPayer(sources, blockhash, payer);
      return NoFeePayer;
    }
    KeysAvailable(instructions, sources, feePayer);
    CompileIs(sources, blockhash, payer, feePayer);
    var final := FinalAccounts(instructions, sources, feePayer);
    r := Assemble(final, instructions, sources, blockhash, feePayer);
  }

  /** The one meta of a lone instruction pays for it read-only; when the data fails to encode there is no
      message, and the meta is writable all the same. */
  method FailureRaisesPayer(key: PublicKey, program: PublicKey, zero: PublicKey) returns (r: Result, meta: AccountMeta, ghost before: Meta)
    requires IsZero(zero)
    ensures r == DataFailed(0)
    ensures before == Meta(key, false, true) && fresh(meta) && View(meta) == Meta(key, true, true)
  {
    meta := new AccountMeta(key, false, true);
    before := View(meta);
    var instructions := [Instruction(program, [meta], None)];
    LonePayer(instructions, program, key, meta, zero);
    hide Compile, Gathered, Sources, IsLeader, NothingRaised, FirstFailing;
    r := NewTransaction(instructions, zero, zero);
  }

  lemma LonePayer(instructions: seq<Instruction>, program: PublicKey, key: PublicKey, meta: AccountMeta, zero: PublicKey)
    requires instructions == [Instruction(program, [meta], None)] && View(meta) == Meta(key, false, true) && IsZero(zero)
    ensures meta in Objects(instructions) && FirstFailing(instructions) == 0
    ensures var compiled := Compile(Sources(instructions), zero, zero);
            compiled.Done? && |compiled.message.keys| > 0 && compiled.message.keys[0] == key
    ensures IsLeader(instructions, Gathered(Sources(instructions)), meta)
  {
    hide Gathered, Compile, MessageFor, LeaderIndex, Objects;
    var sources := Sources(instructions);
    assert Views([meta]) == [Meta(key, false, true)];
    assert sources[0] == SourceOf(instructions[0]) == Source(program, [Meta(key, false, true)], []);
    LoneSource(sources, program, key);
    CompileIs(sources, zero, zero, key);
    assert MetaObjects(instructions) == MetaObjects(instructions[..0]) + [meta] == [meta];
    ObjectsAreNamed(instructions);
  }

  lemma LoneSource(sources: seq<Source>, program: PublicKey, key: PublicKey)
    requires sources == [Source(program, [Meta(key, false, true)], [])]
    ensures FirstSigner(sources[0].accounts) == 0
    ensures HasKey(Gathered(sources), key) && LeaderIndex(Gathered(sources), key) == 0
  {
    var accounts, ms := [Meta(key, false, true)], Gathered(sources);
    assert Accounts(sources) == Accounts(sources[..0]) + accounts == accounts;
    assert ms[0] == Meta(key, false, true) && ms[0] in ms;
    ProgramsRankLast(sources);
    assert FirstSigner(accounts[..0]) == 0;
  }

  lemma NoSources(instructions: seq<Instruction>, blockhash: PublicKey, payer: PublicKey)
    requires instructions == []
    ensures Compile(Sources(instructions), blockhash, payer) == NoInstructions
  {}

  lemma NoPayer(sources: seq<Source>, blockhash: PublicKey, payer: PublicKey)
    requires sources != [] && IsZero(payer) && FirstSigner(sources[0].accounts) == |sources[0].accounts|
    ensures Compile(sources, blockhash, payer) == NoFeePayer
  {}
}
