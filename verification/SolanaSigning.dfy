/** Serialising and signing a transaction (common/solana/util.go). */
module SolanaSigning {
  import opened Bytes
  import opened SolanaMessage
  import opened SolanaLayout
  import opened SolanaWire
  import opened Options

  type PrivateKey = seq<byte>

  method MarshalInstruction(buf: seq<byte>, instruction: Compiled) returns (out: seq<byte>)
    ensures out == buf + EncodeInstruction(instruction)
  {
    hide CompactLength;
    var program := [(instruction.programIndex % 256) as byte];
    out := EncodeCompactU16Length(buf + program, |instruction.accounts|);
    ghost var head := out;
    for i := 0 to |instruction.accounts|
      invariant out == head + IndexBytes(instruction.accounts)[..i]
    {
      out := out + [(instruction.accounts[i] % 256) as byte];
    }
    assert out == head + IndexBytes(instruction.accounts);
    out := EncodeCompactU16Length(out, |instruction.data|);
    out := out + instruction.data;
    Chain(buf, program, CompactLength(|instruction.accounts|), IndexBytes(instruction.accounts),
          CompactLength(|instruction.data|), instruction.data);
  }

  lemma Chain(a: seq<byte>, b: seq<byte>, c: seq<byte>, d: seq<byte>, e: seq<byte>, f: seq<byte>)
    ensures a + b + c + d + e + f == a + (b + (c + (d + (e + f))))
  {}

  lemma KeysStep(ks: seq<PublicKey>, i: nat)
    requires i < |ks|
    ensures EncodeKeys(ks[..i + 1]) == EncodeKeys(ks[..i]) + ks[i].bytes
  {
    assert ks[..i + 1][..i] == ks[..i];
  }

  lemma InstructionsStep(cs: seq<Compiled>, i: nat)
    requires i < |cs|
    ensures EncodeInstructions(cs[..i + 1]) == EncodeInstructions(cs[..i]) + EncodeInstruction(cs[i])
  {
    assert cs[..i + 1][..i] == cs[..i];
  }

  lemma SignaturesStep(ss: seq<Signature>, i: nat)
    requires i < |ss|
    ensures EncodeSignatures(ss[..i + 1]) == EncodeSignatures(ss[..i]) + ss[i].bytes
  {
    assert ss[..i + 1][..i] == ss[..i];
  }

  lemma NothingEncoded()
    ensures EncodeKeys([]) == [] && EncodeInstructions([]) == [] && EncodeSignatures([]) == []
  {}

  /** Message.MarshalBinary. */
  method MarshalMessage(m: Message) returns (buf: seq<byte>)
    ensures buf == EncodeMessage(m)
  {
    hide CompactLength, EncodeKeys, EncodeInstruction, EncodeInstructions;
    NothingEncoded();
    var header := [m.header.required, m.header.readonlySigned, m.header.readonlyUnsigned];
    buf := EncodeCompactU16Length(header, |m.keys|);
    ghost var start := buf;
    assert m.keys[..0] == [];
    for i := 0 to |m.keys|
      invariant buf == start + EncodeKeys(m.keys[..i])
    {
      KeysStep(m.keys, i);
      buf := buf + m.keys[i].bytes;
    }
    assert m.keys[..|m.keys|] == m.keys;
    buf := EncodeCompactU16Length(buf + m.blockhash.bytes, |m.instructions|);
    start := buf;
    assert m.instructions[..0] == [];
    for i := 0 to |m.instructions|
      invariant buf == start + EncodeInstructions(m.instructions[..i])
    {
      InstructionsStep(m.instructions, i);
      buf := MarshalInstruction(buf, m.instructions[i]);
    }
    assert m.instructions[..|m.instructions|] == m.instructions;
    Chain(header, CompactLength(|m.keys|), EncodeKeys(m.keys), m.blockhash.bytes, CompactLength(|m.instructions|),
          EncodeInstructions(m.instructions));
  }

  // ---- signatures

  datatype SignOutcome = Panicked | KeyMissing(key: PublicKey) | SigningFailed(key: PublicKey) | Signed(signatures: seq<Signature>)

  /** The signatures made for the keys in order, up to the first key that cannot sign. */
  ghost function SignaturesFor(keys: seq<PublicKey>, content: seq<byte>, getter: PublicKey -> Option<PrivateKey>,
                               sign: (PrivateKey, seq<byte>) -> Option<Signature>): (ss: seq<Signature>)
    ensures |ss| <= |keys|
    ensures forall i :: 0 <= i < |ss| ==>
              CanSign(keys[i], content, getter, sign) && Some(ss[i]) == sign(getter(keys[i]).value, content)
    ensures |ss| < |keys| ==> !CanSign(keys[|ss|], content, getter, sign)
  {
    if keys == [] then [] else
      var ss := SignaturesFor(keys[..|keys| - 1], content, getter, sign);
      if |ss| == |keys| - 1 && CanSign(keys[|keys| - 1], content, getter, sign)
      then ss + [sign(getter(keys[|keys| - 1]).value, content).value] else ss
  }

  ghost predicate CanSign(key: PublicKey, content: seq<byte>, getter: PublicKey -> Option<PrivateKey>,
                          sign: (PrivateKey, seq<byte>) -> Option<Signature>) {
    getter(key).Some? && sign(getter(key).value, content).Some?
  }

  function EncodeTransaction(m: Message, signatures: seq<Signature>): seq<byte> {
    CompactLength(|signatures|) + (EncodeSignatures(signatures) + EncodeMessage(m))
  }

  /** The layout: the number of signatures, the signatures in order, the message. */
  lemma TransactionBytes(m: Message, s: Signature, t: Signature)
    ensures EncodeTransaction(m, [s, t]) == [2] + s.bytes + t.bytes + EncodeMessage(m)
  {
    hide EncodeMessage;
    assert EncodeSignatures([s, t][..1]) == EncodeSignatures([s, t][..1][..0]) + s.bytes == s.bytes;
    assert EncodeSignatures([s, t]) == s.bytes + t.bytes;
    assert CompactLength(2) == [2];
  }

  function DecodeTransaction(bs: seq<byte>): Parse<(Message, seq<Signature>)> {
    match DecodeLength(bs)
    case Stuck => Stuck
    case Got(n, rest) =>
      match DecodeSignatures(n, rest)
      case Stuck => Stuck
      case Got(signatures, rest) =>
        match DecodeMessage(rest)
        case Stuck => Stuck
        case Got(m, rest) => Got((m, signatures), rest)
  }

  class Transaction {
    const message: Message
    const spare: seq<PublicKey>     // what the array of message.keys holds past their end
    var signatures: seq<Signature>

    constructor (message: Message, spare: seq<PublicKey>)
      ensures this.message == message && this.spare == spare && signatures == []
    {
      this.message, this.spare, signatures := message, spare, [];
    }

    /** Appends a signature of the encoded message for every required signer, in order; what was
        appended before a failure stays. Slicing reaches into the array past the keys, and panics past
        the array. */
    method Sign(getter: PublicKey -> Option<PrivateKey>, sign: (PrivateKey, seq<byte>) -> Option<Signature>)
      returns (o: SignOutcome)
      modifies this
      ensures o.Panicked? <==> message.header.required as int > |message.keys| + |spare|
      ensures o.Panicked? ==> signatures == old(signatures)
      ensures !o.Panicked? ==>
              var keys := (message.keys + spare)[..message.header.required as int];
              var made := SignaturesFor(keys, EncodeMessage(message), getter, sign);
              && signatures == old(signatures) + made
              && (o.Signed? <==> |made| == |keys|)
              && (o.Signed? ==> o.signatures == signatures)
              && (!o.Signed? ==> o.key == keys[|made|] && (o.KeyMissing? <==> getter(keys[|made|]).None?))
    {
      hide EncodeMessage, SignaturesFor;
      var content := MarshalMessage(message);
      if message.header.required as int > |message.keys| + |spare| {
        return Panicked;
      }
      var keys := (message.keys + spare)[..message.header.required as int];
      ghost var before := signatures;
      assert keys[..0] == [];
      for i := 0 to |keys|
        invariant signatures == before + SignaturesFor(keys[..i], content, getter, sign)
        invariant |SignaturesFor(keys[..i], content, getter, sign)| == i
      {
        var privateKey := getter(keys[i]);
        if privateKey.None? {
          StopsAt(keys, i, content, getter, sign);
          return KeyMissing(keys[i]);
        }
        var signature := sign(privateKey.value, content);
        if signature.None? {
          StopsAt(keys, i, content, getter, sign);
          return SigningFailed(keys[i]);
        }
        SignsOne(keys, i, content, getter, sign);
        signatures := signatures + [signature.value];
      }
      assert keys[..|keys|] == keys;
      return Signed(signatures);
    }

    method MarshalBinary() returns (out: Option<seq<byte>>)
      ensures out == if |signatures| != 0 && |signatures| == message.header.required as int
        then Some(EncodeTransaction(message, signatures)) else None
    {
      hide CompactLength, EncodeSignatures, EncodeMessage;
      if |signatures| == 0 || |signatures| != message.header.required as int {
        return None;
      }
      var messageContent := MarshalMessage(message);
      var output := EncodeCompactU16Length([], |signatures|);
      ghost var start := output;
      assert start == CompactLength(|signatures|);
      NothingEncoded();
      assert signatures[..0] == [];
      for i := 0 to |signatures|
        invariant output == start + EncodeSignatures(signatures[..i])
      {
        SignaturesStep(signatures, i);
        output := output + signatures[i].bytes;
      }
      assert signatures[..|signatures|] == signatures;
      Regroup(CompactLength(|signatures|), EncodeSignatures(signatures), messageContent);
      return Some(output + messageContent);
    }
  }

  lemma SignsOne(keys: seq<PublicKey>, i: nat, content: seq<byte>, getter: PublicKey -> Option<PrivateKey>,
                 sign: (PrivateKey, seq<byte>) -> Option<Signature>)
    requires i < |keys| && |SignaturesFor(keys[..i], content, getter, sign)| == i
    requires CanSign(keys[i], content, getter, sign)
    ensures SignaturesFor(keys[..i + 1], content, getter, sign)
         == SignaturesFor(keys[..i], content, getter, sign) + [sign(getter(keys[i]).value, content).value]
  {
    assert keys[..i + 1][..i] == keys[..i];
  }

  lemma {:induction false} StopsAt(keys: seq<PublicKey>, i: nat, content: seq<byte>, getter: PublicKey -> Option<PrivateKey>,
                                   sign: (PrivateKey, seq<byte>) -> Option<Signature>)
    requires i < |keys| && |SignaturesFor(keys[..i], content, getter, sign)| == i
    requires !CanSign(keys[i], content, getter, sign)
    ensures SignaturesFor(keys, content, getter, sign) == SignaturesFor(keys[..i], content, getter, sign)
    decreases |keys|
  {
    if i < |keys| - 1 {
      assert keys[..|keys| - 1][..i] == keys[..i];
      StopsAt(keys[..|keys| - 1], i, content, getter, sign);
    }
  }

  /** A signed transaction is recovered from its bytes, whatever follows them, if and only if every index
      fits in the byte it is written to. */
  lemma TransactionRoundTrip(m: Message, signatures: seq<Signature>, rest: seq<byte>)
    ensures DecodeTransaction(EncodeTransaction(m, signatures) + rest) == Got((m, signatures), rest)
       <==> forall i :: 0 <= i < |m.instructions| ==> FitsBytes(m.instructions[i])
  {
    hide EncodeMessage, DecodeMessage, EncodeSignatures, DecodeSignatures, CompactLength, DecodeLength, FitsBytes;
    var em, es, cl := EncodeMessage(m), EncodeSignatures(signatures), CompactLength(|signatures|);
    Regroup(es, em, rest);
    Regroup(cl, es + em, rest);
    LengthRoundTrip(|signatures|, es + (em + rest));
    SignaturesRoundTrip(signatures, em + rest);
    MessageDecodes(m, rest);
    MessageRoundTrip(m, rest);
  }

  /** A compiled message asks for as many signatures as it has signers, as a byte: no more than it has keys. */
  lemma CompiledNeedsSignatures(sources: seq<Source>, blockhash: PublicKey, payer: PublicKey)
    ensures var m := MessageFor(sources, blockhash, payer);
            && m.header.required as int == Count(Signers(Final(Gathered(sources), payer))) % 256
            && m.header.required as int <= |m.keys|
  {
    hide HeaderOf, Count, CompileAll;
    HeaderCounts(Final(Gathered(sources), payer));
  }

  /** Compile, sign a fresh transaction, serialise: once every signer has signed, the count check passes
      unless the signers number a multiple of 256, and the bytes decode to the compiled message and the
      signatures if and only if all indices are of one byte. */
  method CompileSignMarshal(ghost sources: seq<Source>, blockhash: PublicKey, ghost payer: PublicKey, message: Message, spare: seq<PublicKey>,
                            getter: PublicKey -> Option<PrivateKey>, sign: (PrivateKey, seq<byte>) -> Option<Signature>)
    returns (o: SignOutcome, bytes: Option<seq<byte>>)
    requires message == MessageFor(sources, blockhash, payer)
    ensures !o.Panicked?
    ensures bytes.Some? <==> o.Signed? && Count(Signers(Final(Gathered(sources), payer))) % 256 != 0
    ensures o.Signed? ==> |o.signatures| == message.header.required as int
    ensures bytes.Some? ==>
      (DecodeTransaction(bytes.value) == Got((message, o.signatures), []) <==>
        forall i :: 0 <= i < |sources| ==> IndexedInByte(sources[i], message.keys))
  {
    hide MessageFor, EncodeMessage, DecodeTransaction, EncodeTransaction, Gathered, IndexedInByte, FitsBytes, Count, Final;
    CompiledNeedsSignatures(sources, blockhash, payer);
    var tx := new Transaction(message, spare);
    o := tx.Sign(getter, sign);
    bytes := None;
    if o.Signed? {
      bytes := tx.MarshalBinary();
      FitsAllIndices(sources, blockhash, payer);
      TransactionRoundTrip(message, o.signatures, []);
      assert EncodeTransaction(message, o.signatures) + [] == EncodeTransaction(message, o.signatures);
    }
  }
}
