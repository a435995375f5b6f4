/** The Solana wire format, the decoder that undoes it, and signing (common/solana/util.go). */
module SolanaWire {
  import opened Bytes
  import opened SolanaMessage
  import opened SolanaLayout

  datatype SignatureBytes = Sig(bytes: seq<byte>)
  type Signature = s: SignatureBytes | |s.bytes| == 64 witness Sig(seq(64, _ => 0))

  datatype Parse<+T> = Stuck | Got(value: T, rest: seq<byte>)

  // ---- compact lengths

  /** Seven bits a byte, least significant first, the top bit set on all but the last. */
  function CompactLength(n: nat): (bs: seq<byte>)
    ensures |bs| > 0
  {
    if n < 0x80 then [n as byte] else [(n % 0x80 + 0x80) as byte] + CompactLength(n / 0x80)
  }

  method EncodeCompactU16Length(bytes: seq<byte>, ln: nat) returns (out: seq<byte>)
    ensures out == bytes + CompactLength(ln)
  {
    out := bytes;
    var remLen := ln;
    while true
      invariant out + CompactLength(remLen) == bytes + CompactLength(ln)
      decreases remLen
    {
      var elem := remLen % 0x80;
      ghost var before := remLen;
      remLen := remLen / 0x80;
      if remLen == 0 {
        out := out + [elem as byte];
        return;
      }
      assert CompactLength(before) == [(elem + 0x80) as byte] + CompactLength(remLen);
      out := out + [(elem + 0x80) as byte];
    }
  }

  function DecodeLength(bs: seq<byte>): Parse<nat> {
    if bs == [] then Stuck
    else if bs[0] < 0x80 then Got(bs[0] as nat, bs[1..])
    else match DecodeLength(bs[1..])
         case Stuck => Stuck
         case Got(n, rest) => Got(n * 0x80 + (bs[0] as nat - 0x80), rest)
  }

  lemma {:induction false} LengthRoundTrip(n: nat, rest: seq<byte>)
    ensures DecodeLength(CompactLength(n) + rest) == Got(n, rest)
  {
    var bs := CompactLength(n) + rest;
    if n < 0x80 {
      assert bs[1..] == rest;
    } else {
      LengthRoundTrip(n / 0x80, rest);
      assert bs[1..] == CompactLength(n / 0x80) + rest;
    }
  }

  /** No encoded length begins another. */
  function Power128(i: nat): (p: nat)
    ensures p > 0
  {
    if i == 0 then 1 else 128 * Power128(i - 1)
  }

  /** Byte i holds the i-th group of seven bits, and its top bit says that more bytes follow. */
  lemma {:induction false} LengthGroups(n: nat, i: nat)
    requires i < |CompactLength(n)|
    ensures CompactLength(n)[i] as nat % 128 == n / Power128(i) % 128
    ensures CompactLength(n)[i] >= 128 <==> i < |CompactLength(n)| - 1
  {
    if i > 0 {
      LengthGroups(n / 128, i - 1);
      DivideTwice(n, Power128(i - 1));
    }
  }

  lemma DivideTwice(n: nat, p: nat)
    requires p > 0
    ensures n / (128 * p) == n / 128 / p
  {
    var q := n / 128 / p;
    assert p * q <= n / 128 < p * q + p;
    assert 128 * (n / 128) <= n < 128 * (n / 128) + 128;
    assert 128 * p * q <= n < 128 * p * q + 128 * p;
    QuotientIs(n, 128 * p, q);
  }

  lemma QuotientIs(n: nat, d: nat, q: nat)
    requires d > 0 && d * q <= n < d * q + d
    ensures n / d == q
  {
    var r := n / d;
    assert d * r <= n < d * r + d;
    if r < q {
      TimesOrder(d, r + 1, q);
    }
    if q < r {
      TimesOrder(d, q + 1, r);
    }
  }

  lemma TimesOrder(d: nat, x: nat, y: nat)
    requires x <= y
    ensures d * x <= d * y
  {}

  lemma LengthsPrefixFree(a: nat, b: nat)
    ensures CompactLength(a) <= CompactLength(b) ==> a == b
  {
    hide CompactLength, DecodeLength;
    if CompactLength(a) <= CompactLength(b) {
      var tail := CompactLength(b)[|CompactLength(a)|..];
      LengthRoundTrip(a, tail);
      LengthRoundTrip(b, []);
      assert CompactLength(a) + tail == CompactLength(b) + [];
    }
  }

  // ---- byte strings of fixed size, and lists of them

  function TakeBytes(n: nat, bs: seq<byte>): Parse<seq<byte>> {
    if |bs| < n then Stuck else Got(bs[..n], bs[n..])
  }

  lemma TakeBack(s: seq<byte>, rest: seq<byte>)
    ensures TakeBytes(|s|, s + rest) == Got(s, rest)
  {
    assert (s + rest)[..|s|] == s && (s + rest)[|s|..] == rest;
  }

  function EncodeKeys(ks: seq<PublicKey>): seq<byte> {
    if ks == [] then [] else EncodeKeys(ks[..|ks| - 1]) + ks[|ks| - 1].bytes
  }

  function DecodeKeys(n: nat, bs: seq<byte>): Parse<seq<PublicKey>> {
    if n == 0 then Got([], bs)
    else if |bs| < 32 then Stuck
    else match DecodeKeys(n - 1, bs[32..])
         case Stuck => Stuck
         case Got(ks, rest) => var k: PublicKey := Key(bs[..32]); Got([k] + ks, rest)
  }

  lemma {:induction false} EncodeKeysHead(ks: seq<PublicKey>)
    requires ks != []
    ensures EncodeKeys(ks) == ks[0].bytes + EncodeKeys(ks[1..])
  {
    if |ks| > 1 {
      EncodeKeysHead(ks[..|ks| - 1]);
      assert ks[..|ks| - 1][1..] == ks[1..][..|ks| - 2];
    }
  }

  lemma {:induction false} KeysRoundTrip(ks: seq<PublicKey>, rest: seq<byte>)
    ensures DecodeKeys(|ks|, EncodeKeys(ks) + rest) == Got(ks, rest)
  {
    if ks == [] {
      assert EncodeKeys(ks) + rest == rest;
    } else {
      EncodeKeysHead(ks);
      KeysRoundTrip(ks[1..], rest);
      var bs := EncodeKeys(ks) + rest;
      assert bs[..32] == ks[0].bytes && bs[32..] == EncodeKeys(ks[1..]) + rest;
      assert [ks[0]] + ks[1..] == ks;
    }
  }

  function EncodeSignatures(ss: seq<Signature>): seq<byte> {
    if ss == [] then [] else EncodeSignatures(ss[..|ss| - 1]) + ss[|ss| - 1].bytes
  }

  function DecodeSignatures(n: nat, bs: seq<byte>): Parse<seq<Signature>> {
    if n == 0 then Got([], bs)
    else if |bs| < 64 then Stuck
    else match DecodeSignatures(n - 1, bs[64..])
         case Stuck => Stuck
         case Got(ss, rest) => var s: Signature := Sig(bs[..64]); Got([s] + ss, rest)
  }

  lemma {:induction false} EncodeSignaturesHead(ss: seq<Signature>)
    requires ss != []
    ensures EncodeSignatures(ss) == ss[0].bytes + EncodeSignatures(ss[1..])
  {
    if |ss| > 1 {
      EncodeSignaturesHead(ss[..|ss| - 1]);
      assert ss[..|ss| - 1][1..] == ss[1..][..|ss| - 2];
    }
  }

  lemma {:induction false} SignaturesRoundTrip(ss: seq<Signature>, rest: seq<byte>)
    ensures DecodeSignatures(|ss|, EncodeSignatures(ss) + rest) == Got(ss, rest)
  {
    if ss == [] {
      assert EncodeSignatures(ss) + rest == rest;
    } else {
      EncodeSignaturesHead(ss);
      SignaturesRoundTrip(ss[1..], rest);
      var bs := EncodeSignatures(ss) + rest;
      assert bs[..64] == ss[0].bytes && bs[64..] == EncodeSignatures(ss[1..]) + rest;
      assert [ss[0]] + ss[1..] == ss;
    }
  }

  // ---- instructions

  /** Account indices are written as their low bytes. */
  function IndexBytes(accounts: seq<nat>): (bs: seq<byte>)
    ensures |bs| == |accounts| && forall i :: 0 <= i < |bs| ==> bs[i] == (accounts[i] % 256) as byte
  {
    seq(|accounts|, i requires 0 <= i < |accounts| => (accounts[i] % 256) as byte)
  }

  function Indices(bs: seq<byte>): (accounts: seq<nat>)
    ensures |accounts| == |bs| && forall i :: 0 <= i < |bs| ==> accounts[i] == bs[i] as nat
  {
    seq(|bs|, i requires 0 <= i < |bs| => bs[i] as nat)
  }

  function EncodeInstruction(c: Compiled): seq<byte> {
    [(c.programIndex % 256) as byte] + (CompactLength(|c.accounts|) + (IndexBytes(c.accounts) + (CompactLength(|c.data|) + c.data)))
  }

  function DecodeInstruction(bs: seq<byte>): Parse<Compiled> {
    if bs == [] then Stuck else
      match DecodeLength(bs[1..])
      case Stuck => Stuck
      case Got(n, rest) =>
        match TakeBytes(n, rest)
        case Stuck => Stuck
        case Got(accounts, rest) =>
          match DecodeLength(rest)
          case Stuck => Stuck
          case Got(size, rest) =>
            match TakeBytes(size, rest)
            case Stuck => Stuck
            case Got(data, rest) => Got(Compiled(bs[0] as nat, Indices(accounts), data), rest)
  }

  /** What is left of an instruction once its indices are single bytes. */
  function Narrow(c: Compiled): Compiled {
    Compiled(c.programIndex % 256, Indices(IndexBytes(c.accounts)), c.data)
  }

  lemma InstructionRoundTrip(c: Compiled, rest: seq<byte>)
    ensures DecodeInstruction(EncodeInstruction(c) + rest) == Got(Narrow(c), rest)
  {
    hide CompactLength, DecodeLength, TakeBytes, IndexBytes, Indices;
    var d := c.data + rest;
    var ld := CompactLength(|c.data|) + d;
    var a := IndexBytes(c.accounts) + ld;
    var la := CompactLength(|c.accounts|) + a;
    assert EncodeInstruction(c) + rest == [(c.programIndex % 256) as byte] + la by {
      assert CompactLength(|c.data|) + c.data + rest == ld;
      assert (IndexBytes(c.accounts) + (CompactLength(|c.data|) + c.data)) + rest == a;
      assert (CompactLength(|c.accounts|) + (IndexBytes(c.accounts) + (CompactLength(|c.data|) + c.data))) + rest == la;
    }
    assert ([(c.programIndex % 256) as byte] + la)[1..] == la;
    LengthRoundTrip(|c.accounts|, a);
    TakeBack(IndexBytes(c.accounts), ld);
    LengthRoundTrip(|c.data|, d);
    TakeBack(c.data, rest);
  }

  function EncodeInstructions(cs: seq<Compiled>): seq<byte> {
    if cs == [] then [] else EncodeInstructions(cs[..|cs| - 1]) + EncodeInstruction(cs[|cs| - 1])
  }

  function DecodeInstructions(n: nat, bs: seq<byte>): Parse<seq<Compiled>> {
    if n == 0 then Got([], bs) else
      match DecodeInstruction(bs)
      case Stuck => Stuck
      case Got(c, rest) =>
        match DecodeInstructions(n - 1, rest)
        case Stuck => Stuck
        case Got(cs, rest) => Got([c] + cs, rest)
  }

  function NarrowAll(cs: seq<Compiled>): (ns: seq<Compiled>)
    ensures |ns| == |cs| && forall i :: 0 <= i < |cs| ==> ns[i] == Narrow(cs[i])
  {
    seq(|cs|, i requires 0 <= i < |cs| => Narrow(cs[i]))
  }

  lemma {:induction false} EncodeInstructionsHead(cs: seq<Compiled>)
    requires cs != []
    ensures EncodeInstructions(cs) == EncodeInstruction(cs[0]) + EncodeInstructions(cs[1..])
  {
    hide EncodeInstruction;
    if |cs| > 1 {
      EncodeInstructionsHead(cs[..|cs| - 1]);
      assert cs[..|cs| - 1][1..] == cs[1..][..|cs| - 2];
    } else {
      assert EncodeInstructions(cs[..0]) == [] && EncodeInstructions(cs[1..]) == [];
    }
  }

  lemma {:induction false} InstructionsRoundTrip(cs: seq<Compiled>, rest: seq<byte>)
    ensures DecodeInstructions(|cs|, EncodeInstructions(cs) + rest) == Got(NarrowAll(cs), rest)
  {
    hide EncodeInstruction, DecodeInstruction, Narrow;
    if cs == [] {
      assert EncodeInstructions(cs) + rest == rest;
    } else {
      EncodeInstructionsHead(cs);
      var tail := EncodeInstructions(cs[1..]) + rest;
      assert EncodeInstructions(cs) + rest == EncodeInstruction(cs[0]) + tail;
      InstructionRoundTrip(cs[0], tail);
      InstructionsRoundTrip(cs[1..], rest);
      assert NarrowAll(cs) == [Narrow(cs[0])] + NarrowAll(cs[1..]);
    }
  }

  // ---- messages

  function HeaderBytes(h: Header): (bs: seq<byte>) {
    [h.required, h.readonlySigned, h.readonlyUnsigned]
  }

  function EncodeMessage(m: Message): seq<byte> {
    HeaderBytes(m.header) + (CompactLength(|m.keys|) + (EncodeKeys(m.keys) + (m.blockhash.bytes
      + (CompactLength(|m.instructions|) + EncodeInstructions(m.instructions)))))
  }

  function DecodeMessage(bs: seq<byte>): Parse<Message> {
    if |bs| < 3 then Stuck else
      match DecodeLength(bs[3..])
      case Stuck => Stuck
      case Got(n, rest) =>
        match DecodeKeys(n, rest)
        case Stuck => Stuck
        case Got(keys, rest) =>
          if |rest| < 32 then Stuck else
            var blockhash: PublicKey := Key(rest[..32]);
            match DecodeLength(rest[32..])
            case Stuck => Stuck
            case Got(count, rest) =>
              match DecodeInstructions(count, rest)
              case Stuck => Stuck
              case Got(instructions, rest) => Got(Message(Header(bs[0], bs[1], bs[2]), keys, blockhash, instructions), rest)
  }

  /** The layout on a message of two keys and one instruction: the three counters, the keys after their
      number, the blockhash, and after its number the instruction: program, accounts, data. */
  lemma MessageBytes(h: Header, k: PublicKey, q: PublicKey, blockhash: PublicKey, p: byte, a: byte, b: byte, d: byte)
    ensures var m := Message(h, [k, q], blockhash, [Compiled(p as nat, [a as nat, b as nat], [d])]);
            EncodeMessage(m)
            == [h.required, h.readonlySigned, h.readonlyUnsigned] + [2] + k.bytes + q.bytes + blockhash.bytes
               + [1] + [p, 2, a, b, 1, d]
  {
    var c := Compiled(p as nat, [a as nat, b as nat], [d]);
    assert EncodeKeys([k, q][..1]) == EncodeKeys([k, q][..1][..0]) + k.bytes == k.bytes;
    assert EncodeKeys([k, q]) == k.bytes + q.bytes;
    assert IndexBytes(c.accounts) == [a, b];
    assert EncodeInstruction(c) == [p, 2, a, b, 1, d];
    assert EncodeInstructions([c]) == EncodeInstructions([c][..0]) + EncodeInstruction(c) == EncodeInstruction(c);
    assert CompactLength(2) == [2] && CompactLength(1) == [1];
  }

  lemma Regroup(a: seq<byte>, b: seq<byte>, c: seq<byte>)
    ensures (a + b) + c == a + (b + c)
  {}

  /** The decoder recovers the message, its indices cut to bytes, and leaves the suffix alone. */
  lemma MessageDecodes(m: Message, rest: seq<byte>)
    ensures DecodeMessage(EncodeMessage(m) + rest) == Got(m.(instructions := NarrowAll(m.instructions)), rest)
  {
    hide EncodeInstructions, DecodeInstructions, EncodeKeys, DecodeKeys, CompactLength, DecodeLength;
    var i := EncodeInstructions(m.instructions) + rest;
    var li := CompactLength(|m.instructions|) + i;
    var h := m.blockhash.bytes + li;
    var k := EncodeKeys(m.keys) + h;
    var lk := CompactLength(|m.keys|) + k;
    assert EncodeMessage(m) + rest == HeaderBytes(m.header) + lk by {
      var i', l' := EncodeInstructions(m.instructions), CompactLength(|m.instructions|);
      Regroup(l', i', rest);
      Regroup(m.blockhash.bytes, l' + i', rest);
      Regroup(EncodeKeys(m.keys), m.blockhash.bytes + (l' + i'), rest);
      Regroup(CompactLength(|m.keys|), EncodeKeys(m.keys) + (m.blockhash.bytes + (l' + i')), rest);
      Regroup(HeaderBytes(m.header), CompactLength(|m.keys|) + (EncodeKeys(m.keys) + (m.blockhash.bytes + (l' + i'))), rest);
    }
    var bs := HeaderBytes(m.header) + lk;
    assert bs[3..] == lk;
    LengthRoundTrip(|m.keys|, k);
    KeysRoundTrip(m.keys, h);
    assert h[..32] == m.blockhash.bytes && h[32..] == li;
    LengthRoundTrip(|m.instructions|, i);
    InstructionsRoundTrip(m.instructions, rest);
  }

  predicate FitsBytes(c: Compiled) {
    c.programIndex < 256 && forall i :: 0 <= i < |c.accounts| ==> c.accounts[i] < 256
  }

  lemma NarrowExactly(c: Compiled)
    ensures Narrow(c) == c <==> FitsBytes(c)
  {
    if Narrow(c) == c {
      forall i | 0 <= i < |c.accounts| ensures c.accounts[i] < 256 {
        assert Narrow(c).accounts[i] == c.accounts[i] % 256;
      }
    }
  }

  /** The round trip is exact if and only if every index fits in the byte it is written to. */
  lemma MessageRoundTrip(m: Message, rest: seq<byte>)
    ensures DecodeMessage(EncodeMessage(m) + rest) == Got(m, rest)
       <==> forall i :: 0 <= i < |m.instructions| ==> FitsBytes(m.instructions[i])
  {
    hide EncodeMessage, DecodeMessage, Narrow, FitsBytes;
    MessageDecodes(m, rest);
    var ns := NarrowAll(m.instructions);
    forall i | 0 <= i < |m.instructions| ensures ns[i] == m.instructions[i] <==> FitsBytes(m.instructions[i]) {
      NarrowExactly(m.instructions[i]);
    }
    assert ns == m.instructions <==> forall i :: 0 <= i < |m.instructions| ==> FitsBytes(m.instructions[i]);
  }

  /** Every key an instruction mentions has an index of one byte. */
  predicate IndexedInByte(s: Source, keys: seq<PublicKey>) {
    && IndexOf(keys, s.program) < 256
    && forall a :: 0 <= a < |s.accounts| ==> IndexOf(keys, s.accounts[a].key) < 256
  }

  lemma FitsIndices(sources: seq<Source>, blockhash: PublicKey, payer: PublicKey, i: nat)
    requires i < |sources|
    ensures var m := MessageFor(sources, blockhash, payer);
            FitsBytes(m.instructions[i]) <==> IndexedInByte(sources[i], m.keys)
  {
    hide IndexOf;
    var m := MessageFor(sources, blockhash, payer);
    var c := CompileOne(m.keys, sources[i]);
    assert forall a :: 0 <= a < |c.accounts| ==> c.accounts[a] == IndexOf(m.keys, sources[i].accounts[a].key);
  }

  lemma FitsAllIndices(sources: seq<Source>, blockhash: PublicKey, payer: PublicKey)
    ensures var m := MessageFor(sources, blockhash, payer);
            (forall i :: 0 <= i < |m.instructions| ==> FitsBytes(m.instructions[i])) <==>
              forall i :: 0 <= i < |sources| ==> IndexedInByte(sources[i], m.keys)
  {
    hide FitsBytes, IndexedInByte;
    var m := MessageFor(sources, blockhash, payer);
    forall i | 0 <= i < |sources| ensures FitsBytes(m.instructions[i]) <==> IndexedInByte(sources[i], m.keys) {
      FitsIndices(sources, blockhash, payer, i);
    }
  }

  /** A compiled message survives the wire if and only if every key its instructions mention has an index
      of one byte; so always with at most 256 keys. */
  lemma CompiledRoundTrip(sources: seq<Source>, blockhash: PublicKey, payer: PublicKey, rest: seq<byte>)
    ensures var m := MessageFor(sources, blockhash, payer);
            && (DecodeMessage(EncodeMessage(m) + rest) == Got(m, rest) <==>
                 forall i :: 0 <= i < |sources| ==> IndexedInByte(sources[i], m.keys))
            && (|m.keys| <= 256 ==> forall i :: 0 <= i < |sources| ==> IndexedInByte(sources[i], m.keys))
  {
    hide EncodeMessage, DecodeMessage, FitsBytes, IndexedInByte, MessageFor;
    var m := MessageFor(sources, blockhash, payer);
    MessageRoundTrip(m, rest);
    FitsAllIndices(sources, blockhash, payer);
    forall i | 0 <= i < |sources| && |m.keys| <= 256 ensures IndexedInByte(sources[i], m.keys) {
      FewKeysFit(sources, blockhash, payer, i);
    }
  }

  lemma FewKeysFit(sources: seq<Source>, blockhash: PublicKey, payer: PublicKey, i: nat)
    requires i < |sources| && |MessageFor(sources, blockhash, payer).keys| <= 256
    ensures IndexedInByte(sources[i], MessageFor(sources, blockhash, payer).keys)
  {
    hide IndexOf;
    KeysOfFinal(Gathered(sources), payer);
    FewKeysResolve(sources, blockhash, payer, i);
    var m := MessageFor(sources, blockhash, payer);
    var c := CompileOne(m.keys, sources[i]);
    assert forall a :: 0 <= a < |c.accounts| ==> c.accounts[a] == IndexOf(m.keys, sources[i].accounts[a].key);
  }
}
