/** What a compiled Solana message should be, on plain values, and what follows from it
    (common/solana/util.go). */
module SolanaMessage {
  import opened Bytes

  datatype KeyBytes = Key(bytes: seq<byte>)
  type PublicKey = k: KeyBytes | |k.bytes| == 32 witness Key(seq(32, _ => 0))

  /** The zero key stands for no fee payer given. */
  predicate IsZero(k: PublicKey) {
    forall i :: 0 <= i < 32 ==> k.bytes[i] == 0
  }

  datatype Meta = Meta(key: PublicKey, writable: bool, signer: bool)

  /** An instruction as its caller wrote it. */
  datatype Source = Source(program: PublicKey, accounts: seq<Meta>, data: seq<byte>)

  datatype Header = Header(required: byte, readonlySigned: byte, readonlyUnsigned: byte)
  datatype Compiled = Compiled(programIndex: nat, accounts: seq<nat>, data: seq<byte>)
  datatype Message = Message(header: Header, keys: seq<PublicKey>, blockhash: PublicKey, instructions: seq<Compiled>)

  // ---- gathering and sorting

  function ProgramIds(sources: seq<Source>): (ids: seq<PublicKey>) {
    if sources == [] then [] else
      var ids := ProgramIds(sources[..|sources| - 1]);
      var id := sources[|sources| - 1].program;
      if id in ids then ids else ids + [id]
  }

  function Accounts(sources: seq<Source>): seq<Meta> {
    if sources == [] then [] else Accounts(sources[..|sources| - 1]) + sources[|sources| - 1].accounts
  }

  function ProgramMetas(ids: seq<PublicKey>): (ms: seq<Meta>)
    ensures |ms| == |ids| && forall i :: 0 <= i < |ms| ==> ms[i] == Meta(ids[i], false, false)
  {
    seq(|ids|, i requires 0 <= i < |ids| => Meta(ids[i], false, false))
  }

  /** Every account meta in order, then a read-only one for each distinct program. */
  function Gathered(sources: seq<Source>): seq<Meta> {
    Accounts(sources) + ProgramMetas(ProgramIds(sources))
  }

  /** Position in the sort order: signers first, then writable ones. */
  function Rank(m: Meta): (r: nat)
    ensures r < 4
  {
    (if m.signer then 0 else 2) + if m.writable then 0 else 1
  }

  /** AccountMeta.less. */
  predicate Less(a: Meta, b: Meta) {
    if a.signer != b.signer then a.signer
    else if a.writable != b.writable then a.writable
    else false
  }

  lemma LessIsRank(a: Meta, b: Meta)
    ensures Less(a, b) <==> Rank(a) < Rank(b)
  {}

  function OfRank(ms: seq<Meta>, r: nat): (f: seq<Meta>) {
    if ms == [] then [] else
      var f := OfRank(ms[..|ms| - 1], r);
      if Rank(ms[|ms| - 1]) == r then f + [ms[|ms| - 1]] else f
  }

  /** The stable sort: each rank in turn, in the original order. */
  function Sorted(ms: seq<Meta>): seq<Meta> {
    OfRank(ms, 0) + OfRank(ms, 1) + OfRank(ms, 2) + OfRank(ms, 3)
  }

  lemma {:induction false} OfRankMembers(ms: seq<Meta>, r: nat)
    ensures forall m :: m in OfRank(ms, r) <==> m in ms && Rank(m) == r
  {
    if ms != [] {
      var last := |ms| - 1;
      OfRankMembers(ms[..last], r);
      assert ms == ms[..last] + [ms[last]];
    }
  }

  lemma SortedMembers(ms: seq<Meta>)
    ensures forall m :: m in Sorted(ms) <==> m in ms
  {
    OfRankMembers(ms, 0);
    OfRankMembers(ms, 1);
    OfRankMembers(ms, 2);
    OfRankMembers(ms, 3);
  }

  lemma SortedAscending(ms: seq<Meta>)
    ensures forall i, j :: 0 <= i < j < |Sorted(ms)| ==> Rank(Sorted(ms)[i]) <= Rank(Sorted(ms)[j])
  {
    OfRankMembers(ms, 0);
    OfRankMembers(ms, 1);
    OfRankMembers(ms, 2);
    OfRankMembers(ms, 3);
  }

  lemma {:induction false} OfRankConcat(a: seq<Meta>, b: seq<Meta>, r: nat)
    ensures OfRank(a + b, r) == OfRank(a, r) + OfRank(b, r)
  {
    if b == [] {
      assert a + b == a;
    } else {
      var last := |b| - 1;
      OfRankConcat(a, b[..last], r);
      assert (a + b)[..|a + b| - 1] == a + b[..last];
    }
  }

  lemma {:induction false} OfRankTwice(ms: seq<Meta>, q: nat, r: nat)
    ensures OfRank(OfRank(ms, q), r) == if q == r then OfRank(ms, q) else []
  {
    if ms != [] {
      var last := |ms| - 1;
      OfRankTwice(ms[..last], q, r);
      OfRankConcat(OfRank(ms[..last], q), [ms[last]], r);
      assert OfRank([ms[last]][..0], r) == [];
    }
  }

  /** Sorting is stable: it keeps every rank's metas, in their order. */
  lemma SortedIsStable(ms: seq<Meta>, r: nat)
    requires r < 4
    ensures OfRank(Sorted(ms), r) == OfRank(ms, r)
  {
    hide OfRank;
    var f0, f1, f2, f3 := OfRank(ms, 0), OfRank(ms, 1), OfRank(ms, 2), OfRank(ms, 3);
    OfRankConcat(f0 + f1 + f2, f3, r);
    OfRankConcat(f0 + f1, f2, r);
    OfRankConcat(f0, f1, r);
    OfRankTwice(ms, 0, r);
    OfRankTwice(ms, 1, r);
    OfRankTwice(ms, 2, r);
    OfRankTwice(ms, 3, r);
  }

  // ---- deduplicating

  function Keys(ms: seq<Meta>): (ks: seq<PublicKey>)
    ensures |ks| == |ms| && forall i :: 0 <= i < |ms| ==> ks[i] == ms[i].key
  {
    seq(|ms|, i requires 0 <= i < |ms| => ms[i].key)
  }

  function Distinct(ks: seq<PublicKey>): (ds: seq<PublicKey>)
    ensures forall k :: k in ds <==> k in ks
    ensures NoDuplicates(ds)
  {
    if ks == [] then [] else
      var last := |ks| - 1;
      var ds := Distinct(ks[..last]);
      assert ks == ks[..last] + [ks[last]];
      if ks[last] in ds then ds else ds + [ks[last]]
  }

  predicate NoDuplicates(ks: seq<PublicKey>) {
    forall i, j :: 0 <= i < j < |ks| ==> ks[i] != ks[j]
  }

  function Without(ks: seq<PublicKey>, k: PublicKey): (r: seq<PublicKey>)
    ensures forall q :: q in r <==> q in ks && q != k
    ensures NoDuplicates(ks) ==> NoDuplicates(r)
  {
    assert NoDuplicates(ks) && ks != [] ==> NoDuplicates(ks[..|ks| - 1]) && ks[|ks| - 1] !in ks[..|ks| - 1];
    if ks == [] then [] else
      var last := |ks| - 1;
      var r := Without(ks[..last], k);
      assert ks == ks[..last] + [ks[last]];
      if ks[last] == k then r else r + [ks[last]]
  }

  predicate SignerKey(ms: seq<Meta>, k: PublicKey) {
    exists m :: m in ms && m.key == k && m.signer
  }

  predicate WritableKey(ms: seq<Meta>, k: PublicKey) {
    exists m :: m in ms && m.key == k && m.writable
  }

  function MergedMeta(ms: seq<Meta>, k: PublicKey): Meta {
    Meta(k, WritableKey(ms, k), SignerKey(ms, k))
  }

  function MergeAll(ms: seq<Meta>, ks: seq<PublicKey>): (u: seq<Meta>)
    ensures |u| == |ks| && forall i :: 0 <= i < |u| ==> u[i] == MergedMeta(ms, ks[i])
  {
    seq(|ks|, i requires 0 <= i < |ks| => MergedMeta(ms, ks[i]))
  }

  /** The distinct keys in sorted order, each with everything its metas ask for. */
  function Merged(ms: seq<Meta>): (u: seq<Meta>) {
    MergeAll(ms, Distinct(Keys(Sorted(ms))))
  }

  predicate HasKey(ms: seq<Meta>, k: PublicKey) {
    exists m :: m in ms && m.key == k
  }

  lemma KeysOfSorted(ms: seq<Meta>, k: PublicKey)
    ensures k in Distinct(Keys(Sorted(ms))) <==> HasKey(ms, k)
  {
    SortedMembers(ms);
    var s := Sorted(ms);
    if k in Keys(s) {
      var i :| 0 <= i < |s| && Keys(s)[i] == k;
      assert s[i] in ms;
    }
    if m :| m in ms && m.key == k {
      var i :| 0 <= i < |s| && s[i] == m;
      assert Keys(s)[i] == k;
    }
  }

  function FinalKeys(ms: seq<Meta>, payer: PublicKey): (ks: seq<PublicKey>)
    ensures |ks| > 0 && ks[0] == payer && NoDuplicates(ks)
    ensures forall k :: k in ks <==> k == payer || HasKey(ms, k)
  {
    forall k ensures k in Distinct(Keys(Sorted(ms))) <==> HasKey(ms, k) { KeysOfSorted(ms, k); }
    var others := Without(Distinct(Keys(Sorted(ms))), payer);
    assert forall i :: 0 <= i < |others| ==> others[i] in others;
    [payer] + others
  }

  /** A key signs or is writable iff some meta says so or it pays the fee. */
  function FinalMeta(ms: seq<Meta>, payer: PublicKey, k: PublicKey): Meta {
    Meta(k, k == payer || WritableKey(ms, k), k == payer || SignerKey(ms, k))
  }

  function FinalAll(ms: seq<Meta>, payer: PublicKey, ks: seq<PublicKey>): (f: seq<Meta>)
    ensures |f| == |ks| && forall i :: 0 <= i < |f| ==> f[i] == FinalMeta(ms, payer, ks[i])
  {
    seq(|ks|, i requires 0 <= i < |ks| => FinalMeta(ms, payer, ks[i]))
  }

  function Final(ms: seq<Meta>, payer: PublicKey): seq<Meta> {
    FinalAll(ms, payer, FinalKeys(ms, payer))
  }

  // ---- header and indices

  function Count(bs: seq<bool>): (c: nat)
    ensures c <= |bs|
  {
    if bs == [] then 0 else Count(bs[..|bs| - 1]) + if bs[|bs| - 1] then 1 else 0
  }

  function Signers(f: seq<Meta>): (bs: seq<bool>)
    ensures |bs| == |f| && forall i :: 0 <= i < |f| ==> bs[i] == f[i].signer
  {
    seq(|f|, i requires 0 <= i < |f| => f[i].signer)
  }

  function ReadonlySigners(f: seq<Meta>): (bs: seq<bool>)
    ensures |bs| == |f| && forall i :: 0 <= i < |f| ==> bs[i] == (f[i].signer && !f[i].writable)
  {
    seq(|f|, i requires 0 <= i < |f| => f[i].signer && !f[i].writable)
  }

  function ReadonlyOthers(f: seq<Meta>): (bs: seq<bool>)
    ensures |bs| == |f| && forall i :: 0 <= i < |f| ==> bs[i] == (!f[i].signer && !f[i].writable)
  {
    seq(|f|, i requires 0 <= i < |f| => !f[i].signer && !f[i].writable)
  }

  /** The header counters are single bytes, so they wrap at 256. */
  function HeaderOf(f: seq<Meta>): Header {
    Header((Count(Signers(f)) % 256) as byte, (Count(ReadonlySigners(f)) % 256) as byte, (Count(ReadonlyOthers(f)) % 256) as byte)
  }

  /** Where k stands among the keys, as the 16-bit index the message holds. */
  function IndexOf(ks: seq<PublicKey>, k: PublicKey): nat {
    Position(ks, k) % 0x1_0000
  }

  /** Position of the last occurrence; 0, the map's zero value, when absent. */
  function Position(ks: seq<PublicKey>, k: PublicKey): (p: nat)
    ensures k in ks ==> p < |ks| && ks[p] == k
  {
    if ks == [] then 0 else if ks[|ks| - 1] == k then |ks| - 1 else Position(ks[..|ks| - 1], k)
  }

  function CompileOne(ks: seq<PublicKey>, s: Source): Compiled {
    Compiled(IndexOf(ks, s.program),
             seq(|s.accounts|, i requires 0 <= i < |s.accounts| => IndexOf(ks, s.accounts[i].key)), s.data)
  }

  function CompileAll(ks: seq<PublicKey>, sources: seq<Source>): (cs: seq<Compiled>)
    ensures |cs| == |sources| && forall i :: 0 <= i < |cs| ==> cs[i] == CompileOne(ks, sources[i])
  {
    seq(|sources|, i requires 0 <= i < |sources| => CompileOne(ks, sources[i]))
  }

  datatype Result = NoInstructions | NoFeePayer | DataFailed(index: nat) | Done(message: Message)

  function FirstSigner(ms: seq<Meta>): (i: nat)
    ensures i <= |ms|
    ensures i < |ms| ==> ms[i].signer
    ensures forall j :: 0 <= j < i ==> !ms[j].signer
  {
    if ms == [] then 0 else
      var i := FirstSigner(ms[..|ms| - 1]);
      if i < |ms| - 1 || ms[|ms| - 1].signer then i else |ms|
  }

  function Compile(sources: seq<Source>, blockhash: PublicKey, payer: PublicKey): Result {
    if sources == [] then NoInstructions else
      var first := FirstSigner(sources[0].accounts);
      if IsZero(payer) && first == |sources[0].accounts| then NoFeePayer else
        var chosen := if IsZero(payer) then sources[0].accounts[first].key else payer;
        Done(MessageFor(sources, blockhash, chosen))
  }

  function MessageFor(sources: seq<Source>, blockhash: PublicKey, payer: PublicKey): Message {
    var f := Final(Gathered(sources), payer);
    Message(HeaderOf(f), Keys(f), blockhash, CompileAll(Keys(f), sources))
  }
}
