/** What a compiled message says of its keys, in terms of the instructions it was compiled from
    (common/solana/util.go). */
module SolanaHeader {
  import opened SolanaMessage
  import opened SolanaLayout

  // ---- what the instructions say of a key

  ghost predicate Mentioned(sources: seq<Source>, k: PublicKey) {
    exists i :: 0 <= i < |sources| && (sources[i].program == k || exists m :: m in sources[i].accounts && m.key == k)
  }

  /** The fee payer signs, and a key that some account meta has as a signer. */
  ghost predicate Signs(sources: seq<Source>, payer: PublicKey, k: PublicKey) {
    k == payer || exists i, m :: 0 <= i < |sources| && m in sources[i].accounts && m.key == k && m.signer
  }

  ghost predicate Writes(sources: seq<Source>, payer: PublicKey, k: PublicKey) {
    k == payer || exists i, m :: 0 <= i < |sources| && m in sources[i].accounts && m.key == k && m.writable
  }

  lemma {:induction false} NamedAccounts(sources: seq<Source>, m: Meta)
    ensures m in Accounts(sources) <==> exists i :: 0 <= i < |sources| && m in sources[i].accounts
  {
    if sources != [] {
      var last := |sources| - 1;
      NamedAccounts(sources[..last], m);
      if i :| 0 <= i < |sources| && m in sources[i].accounts {
        assert i < last ==> sources[..last][i] == sources[i];
      }
    }
  }

  lemma {:induction false} NamedPrograms(sources: seq<Source>, k: PublicKey)
    ensures k in ProgramIds(sources) <==> exists i :: 0 <= i < |sources| && sources[i].program == k
  {
    if sources != [] {
      var last := |sources| - 1;
      NamedPrograms(sources[..last], k);
      if i :| 0 <= i < |sources| && sources[i].program == k {
        assert i < last ==> sources[..last][i] == sources[i];
      }
    }
  }

  lemma GatheredMembers(sources: seq<Source>, m: Meta)
    ensures m in Gathered(sources) <==>
      || (exists i :: 0 <= i < |sources| && m in sources[i].accounts)
      || (m == Meta(m.key, false, false) && exists i :: 0 <= i < |sources| && sources[i].program == m.key)
  {
    hide Accounts, ProgramIds;
    NamedAccounts(sources, m);
    NamedPrograms(sources, m.key);
    var ids := ProgramIds(sources);
    assert m in ProgramMetas(ids) <==> m == Meta(m.key, false, false) && m.key in ids by {
      if m == Meta(m.key, false, false) && m.key in ids {
        var j :| 0 <= j < |ids| && ids[j] == m.key;
        assert ProgramMetas(ids)[j] == m;
      }
    }
  }

  /** The flags and keys the compiler works with are what the instructions say. */
  lemma GatheredSays(sources: seq<Source>, payer: PublicKey, k: PublicKey)
    ensures HasKey(Gathered(sources), k) <==> Mentioned(sources, k)
    ensures FinalMeta(Gathered(sources), payer, k) == Meta(k, Writes(sources, payer, k), Signs(sources, payer, k))
  {
    hide Gathered;
    var ms := Gathered(sources);
    forall m ensures m in ms <==>
        || (exists i :: 0 <= i < |sources| && m in sources[i].accounts)
        || (m == Meta(m.key, false, false) && exists i :: 0 <= i < |sources| && sources[i].program == m.key)
    {
      GatheredMembers(sources, m);
    }
    if Mentioned(sources, k) {
      var i :| 0 <= i < |sources| && (sources[i].program == k || exists m :: m in sources[i].accounts && m.key == k);
      assert sources[i].program == k ==> Meta(k, false, false) in ms;
    }
  }

  // ---- what the message says

  /** The first `required` keys sign, and no others. */
  ghost predicate SignersAnnounced(m: Message, sources: seq<Source>, payer: PublicKey) {
    forall i :: 0 <= i < |m.keys| ==> (Signs(sources, payer, m.keys[i]) <==> i < m.header.required as int)
  }

  /** Of the first `required` keys the last `readonlySigned` are read-only, and no others. */
  ghost predicate SignedAnnounced(m: Message, sources: seq<Source>, payer: PublicKey) {
    forall i :: 0 <= i < m.header.required as int && i < |m.keys| ==>
      (Writes(sources, payer, m.keys[i]) <==> i < m.header.required as int - m.header.readonlySigned as int)
  }

  /** Of the keys that do not sign the last `readonlyUnsigned` are read-only, and no others. */
  ghost predicate UnsignedAnnounced(m: Message, sources: seq<Source>, payer: PublicKey) {
    forall i :: 0 <= i < |m.keys| && !Signs(sources, payer, m.keys[i]) ==>
      (Writes(sources, payer, m.keys[i]) <==> i < |m.keys| - m.header.readonlyUnsigned as int)
  }

  ghost predicate Announced(m: Message, sources: seq<Source>, payer: PublicKey) {
    SignersAnnounced(m, sources, payer) && SignedAnnounced(m, sources, payer) && UnsignedAnnounced(m, sources, payer)
  }

  ghost function SigningKeys(m: Message, sources: seq<Source>, payer: PublicKey): set<PublicKey> {
    set k | k in m.keys && Signs(sources, payer, k)
  }

  ghost function ReadonlyKeys(m: Message, sources: seq<Source>, payer: PublicKey): set<PublicKey> {
    set k | k in m.keys && !Signs(sources, payer, k) && !Writes(sources, payer, k)
  }

  /** The message and its final metas, byte by byte and key by key. */
  lemma MessageIs(sources: seq<Source>, blockhash: PublicKey, payer: PublicKey)
    ensures var m, f := MessageFor(sources, blockhash, payer), Final(Gathered(sources), payer);
            && m.blockhash == blockhash && |m.keys| == |f| && NoDuplicates(m.keys)
            && m.header.required as int == Count(Signers(f)) % 256
            && m.header.readonlySigned as int == Count(ReadonlySigners(f)) % 256
            && m.header.readonlyUnsigned as int == Count(ReadonlyOthers(f)) % 256
            && forall i :: 0 <= i < |f| ==>
                 f[i] == Meta(m.keys[i], Writes(sources, payer, m.keys[i]), Signs(sources, payer, m.keys[i]))
  {
    hide Signs, Writes, Gathered, Count, FinalKeys;
    var m, f := MessageFor(sources, blockhash, payer), Final(Gathered(sources), payer);
    KeysOfFinal(Gathered(sources), payer);
    HeaderCounts(f);
    forall i | 0 <= i < |f|
      ensures f[i] == Meta(m.keys[i], Writes(sources, payer, m.keys[i]), Signs(sources, payer, m.keys[i]))
    {
      GatheredSays(sources, payer, m.keys[i]);
    }
  }

  /** The keys at the marked places. */
  ghost function Marked(ks: seq<PublicKey>, bs: seq<bool>): set<PublicKey>
    requires |ks| == |bs|
  {
    set i | 0 <= i < |bs| && bs[i] :: ks[i]
  }

  lemma MarkedStep(ks: seq<PublicKey>, bs: seq<bool>)
    requires |ks| == |bs| && bs != []
    ensures var last := |bs| - 1;
            Marked(ks, bs) == if bs[last] then Marked(ks[..last], bs[..last]) + {ks[last]} else Marked(ks[..last], bs[..last])
  {
    var last := |bs| - 1;
    forall k ensures k in Marked(ks, bs) <==> k in Marked(ks[..last], bs[..last]) || (bs[last] && k == ks[last]) {
      if k in Marked(ks, bs) {
        var i :| 0 <= i < |bs| && bs[i] && ks[i] == k;
        assert i < last ==> bs[..last][i] && ks[..last][i] == k;
      }
      if k in Marked(ks[..last], bs[..last]) {
        var i :| 0 <= i < last && bs[..last][i] && ks[..last][i] == k;
        assert bs[i] && ks[i] == k;
      }
    }
  }

  lemma {:induction false} CountKeys(ks: seq<PublicKey>, bs: seq<bool>)
    requires |ks| == |bs| && NoDuplicates(ks)
    ensures Count(bs) == |Marked(ks, bs)|
  {
    if bs != [] {
      var last := |bs| - 1;
      CountKeys(ks[..last], bs[..last]);
      MarkedStep(ks, bs);
      assert ks[last] !in Marked(ks[..last], bs[..last]);
    }
  }

  lemma SignersCounted(sources: seq<Source>, blockhash: PublicKey, payer: PublicKey)
    ensures var m, f := MessageFor(sources, blockhash, payer), Final(Gathered(sources), payer);
            && |SigningKeys(m, sources, payer)| == Count(Signers(f))
            && |ReadonlyKeys(m, sources, payer)| == Count(ReadonlyOthers(f))
  {
    hide Signs, Writes, MessageFor, Final, Count;
    var m, f := MessageFor(sources, blockhash, payer), Final(Gathered(sources), payer);
    MessageIs(sources, blockhash, payer);
    CountKeys(m.keys, Signers(f));
    CountKeys(m.keys, ReadonlyOthers(f));
    assert SigningKeys(m, sources, payer) == Marked(m.keys, Signers(f));
    assert ReadonlyKeys(m, sources, payer) == Marked(m.keys, ReadonlyOthers(f));
  }

  /** The three statements are those about the final metas. */
  lemma AnnouncedIsLayout(sources: seq<Source>, blockhash: PublicKey, payer: PublicKey)
    ensures var m, f := MessageFor(sources, blockhash, payer), Final(Gathered(sources), payer);
            && (SignersAnnounced(m, sources, payer) <==> RequiredLayout(f))
            && (SignedAnnounced(m, sources, payer) <==> SignedLayout(f))
            && (UnsignedAnnounced(m, sources, payer) <==> UnsignedBlock(f))
  {
    hide Signs, Writes, MessageFor, Final, Count, HeaderOf;
    MessageIs(sources, blockhash, payer);
    HeaderCounts(Final(Gathered(sources), payer));
  }

  /** The signers are exactly the first NumRequiredSignatures keys if and only if they are fewer than 256. */
  lemma MessageSigners(sources: seq<Source>, blockhash: PublicKey, payer: PublicKey)
    ensures var m := MessageFor(sources, blockhash, payer);
            SignersAnnounced(m, sources, payer) <==> |SigningKeys(m, sources, payer)| < 256
  {
    hide *;
    AnnouncedIsLayout(sources, blockhash, payer);
    SignersCounted(sources, blockhash, payer);
    RequiredSignersFirst(Gathered(sources), payer);
  }

  /** The read-only keys that do not sign are exactly the last NumReadonlyUnsignedAccounts keys if and only
      if they are fewer than 256. */
  lemma MessageUnsigned(sources: seq<Source>, blockhash: PublicKey, payer: PublicKey)
    ensures var m := MessageFor(sources, blockhash, payer);
            UnsignedAnnounced(m, sources, payer) <==> |ReadonlyKeys(m, sources, payer)| < 256
  {
    hide *;
    AnnouncedIsLayout(sources, blockhash, payer);
    SignersCounted(sources, blockhash, payer);
    UnsignedLayout(Gathered(sources), payer);
  }

  /** With fewer than 256 signers, the read-only ones are exactly the last NumReadonlySignedAccounts of them
      if and only if promotions come first. */
  lemma MessageSigned(sources: seq<Source>, blockhash: PublicKey, payer: PublicKey)
    requires |SigningKeys(MessageFor(sources, blockhash, payer), sources, payer)| < 256
    ensures SignedAnnounced(MessageFor(sources, blockhash, payer), sources, payer)
       <==> PromotionsFirst(Gathered(sources), payer)
  {
    hide *;
    AnnouncedIsLayout(sources, blockhash, payer);
    SignersCounted(sources, blockhash, payer);
    SignedLayoutExactly(Gathered(sources), payer);
  }

  /** The message's three bytes describe all its keys if and only if neither count wraps and promotions come
      first. */
  lemma HeaderExactly(sources: seq<Source>, blockhash: PublicKey, payer: PublicKey)
    ensures var m := MessageFor(sources, blockhash, payer);
            Announced(m, sources, payer) <==>
              && |SigningKeys(m, sources, payer)| < 256 && |ReadonlyKeys(m, sources, payer)| < 256
              && PromotionsFirst(Gathered(sources), payer)
  {
    hide SignersAnnounced, SignedAnnounced, UnsignedAnnounced, SigningKeys, ReadonlyKeys, PromotionsFirst, MessageFor, Gathered;
    MessageSigners(sources, blockhash, payer);
    MessageUnsigned(sources, blockhash, payer);
    if |SigningKeys(MessageFor(sources, blockhash, payer), sources, payer)| < 256 {
      MessageSigned(sources, blockhash, payer);
    }
  }

  /** The message's keys are exactly those the instructions mention and the payer's, once each, the payer's
      first, and the message carries the blockhash it was given. */
  lemma KeysAreExact(sources: seq<Source>, blockhash: PublicKey, payer: PublicKey)
    ensures var m := MessageFor(sources, blockhash, payer);
            && m.blockhash == blockhash
            && |m.keys| > 0 && m.keys[0] == payer && NoDuplicates(m.keys)
            && forall k :: k in m.keys <==> k == payer || Mentioned(sources, k)
  {
    hide Mentioned, Gathered;
    KeysOfFinal(Gathered(sources), payer);
    forall k ensures HasKey(Gathered(sources), k) <==> Mentioned(sources, k) {
      GatheredSays(sources, payer, k);
    }
  }

  /** No key is both a read-only signer and a writable non-signer. */
  ghost predicate NoConflict(sources: seq<Source>) {
    forall i, j, m, q ::
      0 <= i < |sources| && 0 <= j < |sources| && m in sources[i].accounts && q in sources[j].accounts && m.key == q.key ==>
        !(m.signer && !m.writable && q.writable && !q.signer)
  }

  lemma SignedWithoutConflicts(sources: seq<Source>, blockhash: PublicKey, payer: PublicKey)
    requires |SigningKeys(MessageFor(sources, blockhash, payer), sources, payer)| < 256
    requires NoConflict(sources)
    ensures SignedAnnounced(MessageFor(sources, blockhash, payer), sources, payer)
  {
    AnnouncedIsLayout(sources, blockhash, payer);
    SignersCounted(sources, blockhash, payer);
    hide Gathered, SignedAnnounced, MessageFor, Final, Count;
    var ms := Gathered(sources);
    forall m, q | m in ms && q in ms && m.key == q.key ensures !(m.signer && !m.writable && q.writable && !q.signer) {
      GatheredMembers(sources, m);
      GatheredMembers(sources, q);
    }
    SignedLayoutWithoutConflicts(ms, payer);
  }

  /** No fee payer given is the key of 32 zeros. */
  lemma NoPayerIsZeros(k: PublicKey)
    ensures IsZero(k) <==> k == Key(seq(32, _ => 0))
  {
    if IsZero(k) {
      assert k.bytes == seq(32, _ => 0);
    }
  }
}
