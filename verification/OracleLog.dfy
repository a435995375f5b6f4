/** The key-rotation log: the printer of signed records (cmd/microservice-key-rotation) and the
    parser that checks them (cmd/microservice-key-rotation-generate-transaction). */
module OracleLog {
  import opened Bytes
  import opened OracleText
  import opened Options

  datatype OracleUpdate = OracleUpdate(contract: Address, oldOracle: Address, newOracle: Address)

  type Key = nat
  type Digest = d: seq<byte> | |d| == 32 witness seq(32, _ => 0)

  /** Recovery of the signing address from a digest and a signature, with all its errors. */
  type Recover = (Digest, seq<byte>) -> Option<Address>

  const BEGIN_LINE := "-----Begin Digest-----"
  const END_LINE := "-----End Digest-----"
  const INTRO := "] Changing oracle address on contract "
  const FROM := " from "
  const TO := " to "

  /** The new address, left padded to 32 bytes. */
  function DigestOf(newOracle: Address): (d: Digest)
    ensures IsPadded(d, newOracle)
  {
    [0, 0, 0, 0, 0, 0, 0, 0, 0, 0, 0, 0] + newOracle
  }

  /** Twelve zeros and the address. */
  predicate IsPadded(d: Digest, newOracle: Address) {
    (forall i :: 0 <= i < 12 ==> d[i] == 0) && d[12..] == newOracle
  }

  /** Different addresses have different digests. */
  lemma DigestsDiffer(a: Address, b: Address)
    ensures DigestOf(a) == DigestOf(b) <==> a == b
  {
    assert DigestOf(a)[12..] == a && DigestOf(b)[12..] == b;
  }

  lemma PaddedIsDigest(d: Digest, newOracle: Address)
    requires IsPadded(d, newOracle)
    ensures d == DigestOf(newOracle)
  {
    var e := DigestOf(newOracle);
    assert d == d[..12] + d[12..] && e == e[..12] + e[12..];
    assert d[..12] == e[..12];
  }

  // ---- the info line

  datatype Split3 = NoMatch | Match(rest: string, word: string)

  /** Length of the longest run of word characters at the end of s. */
  function WordTail(s: string): (k: nat)
    ensures k <= |s|
    ensures forall i :: |s| - k <= i < |s| ==> IsWordChar(s[i])
    ensures k < |s| ==> !IsWordChar(s[|s| - k - 1])
  {
    if s == "" || !IsWordChar(s[|s| - 1]) then 0 else 1 + WordTail(s[..|s| - 1])
  }

  /** s as rest + sep + word, the word being the longest at the end. */
  function CutWord(s: string, sep: string): Split3 {
    var k := WordTail(s);
    var before := s[..|s| - k];
    if k > 0 && |sep| <= |before| && before[|before| - |sep|..] == sep
    then Match(before[..|before| - |sep|], s[|s| - k..]) else NoMatch
  }

  lemma {:induction false} WordTailOf(a: string, w: string)
    requires forall i :: 0 <= i < |w| ==> IsWordChar(w[i])
    requires a == "" || !IsWordChar(a[|a| - 1])
    ensures WordTail(a + w) == |w|
  {
    if w == "" {
      assert a + w == a;
    } else {
      WordTailOf(a, w[..|w| - 1]);
      assert (a + w)[..|a + w| - 1] == a + w[..|w| - 1];
    }
  }

  lemma CutWordExactly(s: string, sep: string, rest: string, word: string)
    requires sep != "" && !IsWordChar(sep[|sep| - 1])
    ensures CutWord(s, sep) == Match(rest, word) <==> IsWord(word) && s == rest + sep + word
  {
    if IsWord(word) && s == rest + sep + word {
      WordTailOf(rest + sep, word);
      assert s[..|s| - |word|] == rest + sep;
    }
    if CutWord(s, sep) == Match(rest, word) {
      assert s == s[..|s| - WordTail(s)] + s[|s| - WordTail(s)..];
    }
  }

  datatype Info = BadInfo | Info(contract: string, oldOracle: string, newOracle: string)

  function MatchInfo(line: string): Info {
    if line == "" || line[|line| - 1] != '!' then BadInfo else
      match CutWord(line[..|line| - 1], TO)
      case NoMatch => BadInfo
      case Match(s, n) =>
        match CutWord(s, FROM)
        case NoMatch => BadInfo
        case Match(s, o) =>
          match CutWord(s, INTRO)
          case NoMatch => BadInfo
          case Match(s, c) => if |s| >= 2 && s[0] == '[' then Info(c, o, n) else BadInfo
  }

  lemma MatchesAreFound(line: string, t: string, c: string, o: string, n: string)
    requires IsWord(c) && IsWord(o) && IsWord(n)
    requires line == "[" + t + INTRO + c + FROM + o + TO + n + "!"
    ensures MatchInfo(line) == if t == "" then BadInfo else Info(c, o, n)
  {
    hide CutWord;
    var s3 := "[" + t;
    var s2 := s3 + INTRO + c;
    var s1 := s2 + FROM + o;
    assert line[..|line| - 1] == s1 + TO + n;
    CutWordExactly(line[..|line| - 1], TO, s1, n);
    CutWordExactly(s1, FROM, s2, o);
    CutWordExactly(s2, INTRO, s3, c);
  }

  lemma FoundMatches(line: string, c: string, o: string, n: string) returns (t: string)
    requires MatchInfo(line) == Info(c, o, n)
    ensures IsWord(c) && IsWord(o) && IsWord(n) && t != ""
    ensures line == "[" + t + INTRO + c + FROM + o + TO + n + "!"
  {
    hide CutWord;
    var s1 := CutWord(line[..|line| - 1], TO).rest;
    var s2 := CutWord(s1, FROM).rest;
    var s3 := CutWord(s2, INTRO).rest;
    CutWordExactly(line[..|line| - 1], TO, s1, n);
    CutWordExactly(s1, FROM, s2, o);
    CutWordExactly(s2, INTRO, s3, c);
    t := s3[1..];
    assert s3 == "[" + t;
    assert line == line[..|line| - 1] + "!";
  }

  /** Matching from the right finds exactly what the expression captures; the match is unique. */
  lemma MatchInfoExactly(line: string, c: string, o: string, n: string)
    ensures MatchInfo(line) == Info(c, o, n) <==>
      && IsWord(c) && IsWord(o) && IsWord(n)
      && exists t: string :: t != "" &&
           line == "[" + t + "] Changing oracle address on contract " + c + " from " + o + " to " + n + "!"
  {
    hide MatchInfo;
    if MatchInfo(line) == Info(c, o, n) {
      var t := FoundMatches(line, c, o, n);
    }
    if IsWord(c) && IsWord(o) && IsWord(n) {
      forall t: string | t != "" && line == "[" + t + INTRO + c + FROM + o + TO + n + "!"
        ensures MatchInfo(line) == Info(c, o, n)
      {
        MatchesAreFound(line, t, c, o, n);
      }
    }
  }

  // ---- the digest line

  datatype Digits = BadInt | Panics | Decoded(bytes: seq<byte>)

  function ParseElems(elems: seq<string>): Option<seq<byte>> {
    if elems == [] then Some([]) else
      match Atoi(elems[0])
      case None => None
      case Some(v) =>
        match ParseElems(elems[1..])
        case None => None
        case Some(bs) => Some([(v % 256) as byte] + bs)
  }

  /** The brackets are cut off unseen, which panics on a line shorter than two. */
  function DigestBytes(line: string): Digits {
    if |line| < 2 then Panics else
      match ParseElems(Split(line[1..|line| - 1]))
      case None => BadInt
      case Some(bs) => Decoded(bs)
  }

  function Decimals(bs: seq<byte>): (ds: seq<string>)
    ensures |ds| == |bs| && forall i :: 0 <= i < |ds| ==> ds[i] == PrintDecimal(bs[i] as nat)
  {
    seq(|bs|, i requires 0 <= i < |bs| => PrintDecimal(bs[i] as nat))
  }

  function PrintBytes(bs: seq<byte>): string {
    "[" + Join(Decimals(bs)) + "]"
  }

  lemma {:induction false} ElemsRoundTrip(bs: seq<byte>)
    ensures ParseElems(Decimals(bs)) == Some(bs)
  {
    if bs != [] {
      ElemsRoundTrip(bs[1..]);
      AtoiByte(bs[0]);
      assert Decimals(bs)[1..] == Decimals(bs[1..]);
      assert [bs[0]] + bs[1..] == bs;
    }
  }

  /** The text of two bytes. */
  lemma BytesText()
    ensures PrintBytes([7, 31]) == "[7 31]"
  {
    hide PrintDecimal;
    DecimalDigits(3, 7);
    DecimalDigits(3, 1);
    DecimalDigits(0, 3);
    assert Decimals([7, 31])[0] == "7" && Decimals([7, 31])[1] == "31";
    assert Decimals([7, 31]) == ["7", "31"];
    assert Join(["7", "31"][1..]) == "31";
  }

  /** Numbers are read as bytes, wrapping around. */
  lemma BytesWrap()
    ensures DigestBytes("[-1 256]") == Decoded([255, 0])
  {
    hide PrintDecimal, Atoi, Split;
    DecimalDigits(25, 6);
    DecimalDigits(2, 5);
    DecimalDigits(0, 2);
    DecimalDigits(0, 1);
    assert PrintDecimal(25) == "25" && PrintDecimal(256) == "256" && "-" + PrintDecimal(1) == "-1";
    AtoiExactly(256);
    AtoiExactly(1);
    SplitAtSpace("-1", "256");
    SplitAtSpace("256", "");
    assert "[-1 256]"[1..7] == "-1" + " " + "256";
    assert ["-1", "256"][1..] == ["256"] && ["256"][1..] == [];
    ElemsStep(["256"], 256);
    ElemsStep(["-1", "256"], -1);
  }

  lemma ElemsStep(elems: seq<string>, v: int)
    requires elems != [] && Atoi(elems[0]) == Some(v)
    ensures elems[1..] == [] ==> ParseElems(elems) == Some([(v % 256) as byte])
    ensures ParseElems(elems[1..]).Some? ==> ParseElems(elems) == Some([(v % 256) as byte] + ParseElems(elems[1..]).value)
  {
    hide Atoi;
    if elems[1..] == [] {
      assert ParseElems(elems[1..]) == Some([]);
      assert [(v % 256) as byte] + [] == [(v % 256) as byte];
    }
  }

  lemma BytesRoundTrip(bs: seq<byte>)
    requires bs != []
    ensures DigestBytes(PrintBytes(bs)) == Decoded(bs)
  {
    var line, ds := PrintBytes(bs), Decimals(bs);
    assert line[1..|line| - 1] == Join(ds);
    forall i | 0 <= i < |ds| ensures ' ' !in ds[i] {
      DecimalRoundTrip(bs[i] as nat);
    }
    SplitRoundTrip(ds);
    ElemsRoundTrip(bs);
  }

  // ---- the four-phase parser

  datatype Phase = ParseInfo | ParseBeginDigest | ParseDigest | ParseEndDigest
  datatype Outcome = Failed | Panicked | Parsed(updates: seq<OracleUpdate>)

  datatype Parser = Parser(phase: Phase, contract: Address, oldOracle: Address, newOracle: Address, updates: seq<OracleUpdate>)

  /** The signature recovers to the old oracle. */
  predicate Endorsed(recover: Recover, sig: seq<byte>, oldOracle: Address, newOracle: Address) {
    recover(DigestOf(newOracle), sig) == Some(oldOracle)
  }

  datatype Next = Stop(outcome: Outcome) | Go(parser: Parser)

  function OnLine(recover: Recover, p: Parser, line: string): Next {
    match p.phase
    case ParseInfo =>
      (match MatchInfo(line)
       case BadInfo => Stop(Failed)
       case Info(c, o, n) => Go(Parser(ParseBeginDigest, HexToAddress(c), HexToAddress(o), HexToAddress(n), p.updates)))
    case ParseBeginDigest => if line == BEGIN_LINE then Go(p.(phase := ParseDigest)) else Stop(Failed)
    case ParseEndDigest => if line == END_LINE then Go(p.(phase := ParseInfo)) else Stop(Failed)
    case ParseDigest =>
      match DigestBytes(line)
      case Panics => Stop(Panicked)
      case BadInt => Stop(Failed)
      case Decoded(sig) =>
        if Endorsed(recover, sig, p.oldOracle, p.newOracle)
        then Go(p.(phase := ParseEndDigest, updates := p.updates + [OracleUpdate(p.contract, p.oldOracle, p.newOracle)]))
        else Stop(Failed)
  }

  function OnLines(recover: Recover, p: Parser, lines: seq<string>): Outcome
    decreases |lines|
  {
    if lines == [] then Parsed(p.updates) else
      match OnLine(recover, p, lines[0])
      case Stop(o) => o
      case Go(q) => OnLines(recover, q, lines[1..])
  }

  const NO_ADDRESS: Address := [0, 0, 0, 0, 0, 0, 0, 0, 0, 0, 0, 0, 0, 0, 0, 0, 0, 0, 0, 0]

  function Parse(recover: Recover, text: string): Outcome {
    OnLines(recover, Parser(ParseInfo, NO_ADDRESS, NO_ADDRESS, NO_ADDRESS, []), Lines(text))
  }

  /** parseLogs. */
  method ParseLogs(recover: Recover, text: string) returns (o: Outcome)
    ensures o == Parse(recover, text)
  {
    var lines := Lines(text);
    var phase, contract, oldOracle, newOracle := ParseInfo, NO_ADDRESS, NO_ADDRESS, NO_ADDRESS;
    var updates: seq<OracleUpdate> := [];
    assert lines[0..] == lines;
    for i := 0 to |lines|
      invariant OnLines(recover, Parser(phase, contract, oldOracle, newOracle, updates), lines[i..]) == Parse(recover, text)
    {
      var line := lines[i];
      assert lines[i..][1..] == lines[i + 1..];
      match phase {
        case ParseInfo =>
          var info := MatchInfo(line);
          if info.BadInfo? {
            return Failed;
          }
          contract, oldOracle, newOracle := HexToAddress(info.contract), HexToAddress(info.oldOracle), HexToAddress(info.newOracle);
          phase := ParseBeginDigest;
        case ParseBeginDigest =>
          if line != BEGIN_LINE {
            return Failed;
          }
          phase := ParseDigest;
        case ParseEndDigest =>
          if line != END_LINE {
            return Failed;
          }
          phase := ParseInfo;
        case ParseDigest =>
          var sig := DigestBytes(line);
          if sig.Panics? {
            return Panicked;
          }
          if sig.BadInt? || !Endorsed(recover, sig.bytes, oldOracle, newOracle) {
            return Failed;
          }
          updates := updates + [OracleUpdate(contract, oldOracle, newOracle)];
          phase := ParseEndDigest;
      }
    }
    return Parsed(updates);
  }

  // ---- safety

  /** Of every update: some signature over twelve zeros and the new oracle recovers to the old one. */
  ghost predicate AllEndorsed(recover: Recover, updates: seq<OracleUpdate>) {
    forall u :: u in updates ==>
      exists d: Digest, sig ::
        (forall i :: 0 <= i < 12 ==> d[i] == 0) && d[12..] == u.newOracle && recover(d, sig) == Some(u.oldOracle)
  }

  lemma OneEndorsed(recover: Recover, sig: seq<byte>, u: OracleUpdate, updates: seq<OracleUpdate>)
    requires AllEndorsed(recover, updates) && Endorsed(recover, sig, u.oldOracle, u.newOracle)
    ensures AllEndorsed(recover, updates + [u])
  {
    var d := DigestOf(u.newOracle);
    assert IsPadded(d, u.newOracle) && recover(d, sig) == Some(u.oldOracle);
  }

  lemma {:induction false} OnLinesEndorsed(recover: Recover, p: Parser, lines: seq<string>)
    requires AllEndorsed(recover, p.updates)
    ensures OnLines(recover, p, lines).Parsed? ==> AllEndorsed(recover, OnLines(recover, p, lines).updates)
    decreases |lines|
  {
    if lines != [] {
      var next := OnLine(recover, p, lines[0]);
      if next.Go? {
        if next.parser.updates != p.updates {
          OneEndorsed(recover, DigestBytes(lines[0]).bytes, OracleUpdate(p.contract, p.oldOracle, p.newOracle), p.updates);
        }
        OnLinesEndorsed(recover, next.parser, lines[1..]);
      }
    }
  }

  /** Whatever the file says, every update returned was signed for by its old oracle. */
  lemma UpdatesEndorsed(recover: Recover, text: string)
    ensures Parse(recover, text).Parsed? ==> AllEndorsed(recover, Parse(recover, text).updates)
  {
    OnLinesEndorsed(recover, Parser(ParseInfo, NO_ADDRESS, NO_ADDRESS, NO_ADDRESS, []), Lines(text));
  }

  // ---- printing

  /** One rotation: when, for which contract, by which old key, to which new address. */
  datatype Rotation = Rotation(timestamp: string, contract: Address, oldKey: Key, newOracle: Address)

  /** The cryptography: signing, the address of a key, and where the checksum capitalises. */
  datatype Crypto = Crypto(sign: (Digest, Key) -> seq<byte>, addressOf: Key -> Address, upper: (Address, nat) -> bool)

  /** Signatures are 65 bytes and recover to the address of the key that made them. */
  ghost predicate Sound(crypto: Crypto, recover: Recover) {
    forall d, k :: |crypto.sign(d, k)| == 65 && recover(d, crypto.sign(d, k)) == Some(crypto.addressOf(k))
  }

  function Show(crypto: Crypto, a: Address): string {
    PrintAddress(a, (i: nat) => crypto.upper(a, i))
  }

  function InfoLine(crypto: Crypto, r: Rotation): string {
    "[" + r.timestamp + INTRO + Show(crypto, r.contract) + FROM + Show(crypto, crypto.addressOf(r.oldKey))
      + TO + Show(crypto, r.newOracle) + "!"
  }

  function DigestLine(crypto: Crypto, r: Rotation): string {
    PrintBytes(crypto.sign(DigestOf(r.newOracle), r.oldKey))
  }

  function PrintRecord(crypto: Crypto, r: Rotation): string {
    InfoLine(crypto, r) + "\n" + (BEGIN_LINE + "\n" + (DigestLine(crypto, r) + "\n" + (END_LINE + "\n")))
  }

  function PrintAll(crypto: Crypto, rs: seq<Rotation>): string {
    if rs == [] then "" else PrintAll(crypto, rs[..|rs| - 1]) + PrintRecord(crypto, rs[|rs| - 1])
  }

  /** The text of a record: the addresses in the order contract, old, new, and the signature by the old key
      over twelve zeros and the new address. */
  lemma RecordText(crypto: Crypto, r: Rotation, d: Digest)
    requires (forall i :: 0 <= i < 12 ==> d[i] == 0) && d[12..] == r.newOracle
    ensures PrintRecord(crypto, r) ==
      "[" + r.timestamp + "] Changing oracle address on contract " + Show(crypto, r.contract)
      + " from " + Show(crypto, crypto.addressOf(r.oldKey)) + " to " + Show(crypto, r.newOracle) + "!\n"
      + "-----Begin Digest-----\n" + PrintBytes(crypto.sign(d, r.oldKey)) + "\n" + "-----End Digest-----\n"
  {
    hide Show, PrintBytes;
    PaddedIsDigest(d, r.newOracle);
  }

  method PrintLog(crypto: Crypto, rs: seq<Rotation>) returns (fileContent: string)
    ensures fileContent == PrintAll(crypto, rs)
  {
    hide PrintRecord;
    fileContent := "";
    assert rs[..0] == [];
    for i := 0 to |rs|
      invariant fileContent == PrintAll(crypto, rs[..i])
    {
      assert rs[..i + 1][..i] == rs[..i];
      fileContent := fileContent + PrintRecord(crypto, rs[i]);
    }
    assert rs[..|rs|] == rs;
  }

  // ---- the round trip

  function UpdateOf(crypto: Crypto, r: Rotation): OracleUpdate {
    OracleUpdate(r.contract, crypto.addressOf(r.oldKey), r.newOracle)
  }

  function UpdatesOf(crypto: Crypto, rs: seq<Rotation>): (us: seq<OracleUpdate>)
    ensures |us| == |rs| && forall i :: 0 <= i < |us| ==> us[i] == UpdateOf(crypto, rs[i])
  {
    seq(|rs|, i requires 0 <= i < |rs| => UpdateOf(crypto, rs[i]))
  }

  /** A timestamp the info line can carry: something, on one line, and leaving the line, with its 176
      other characters, short enough to be scanned. */
  predicate Carries(t: string) {
    t != "" && '\n' !in t && |t| + 176 < MAX_LINE
  }

  lemma ShowIsWord(crypto: Crypto, a: Address)
    ensures IsWord(Show(crypto, a)) && |Show(crypto, a)| == 42 && HexToAddress(Show(crypto, a)) == a
    ensures '\n' !in Show(crypto, a)
  {
    AddressIsWord(a, (i: nat) => crypto.upper(a, i));
    AddressRoundTrip(a, (i: nat) => crypto.upper(a, i));
  }

  lemma InfoLineClean(crypto: Crypto, r: Rotation)
    requires '\n' !in r.timestamp && |r.timestamp| + 176 < MAX_LINE
    ensures Clean(InfoLine(crypto, r))
    ensures MatchInfo(InfoLine(crypto, r)) == if r.timestamp == "" then BadInfo else
           Info(Show(crypto, r.contract), Show(crypto, crypto.addressOf(r.oldKey)), Show(crypto, r.newOracle))
  {
    hide Show, MatchInfo;
    ShowIsWord(crypto, r.contract);
    ShowIsWord(crypto, crypto.addressOf(r.oldKey));
    ShowIsWord(crypto, r.newOracle);
    MatchesAreFound(InfoLine(crypto, r), r.timestamp, Show(crypto, r.contract),
                    Show(crypto, crypto.addressOf(r.oldKey)), Show(crypto, r.newOracle));
    assert '\n' !in INTRO && '\n' !in FROM && '\n' !in TO;
    assert |INTRO| == 38 && |FROM| == 6 && |TO| == 4;
  }

  lemma {:induction false} JoinedDecimals(bs: seq<byte>)
    ensures '\n' !in Join(Decimals(bs)) && |Join(Decimals(bs))| <= 4 * |bs|
  {
    if bs != [] {
      JoinedDecimals(bs[1..]);
      AtoiByte(bs[0]);
      DecimalRoundTrip(bs[0] as nat);
      assert Decimals(bs)[1..] == Decimals(bs[1..]);
    }
  }

  lemma DigestLineClean(crypto: Crypto, r: Rotation, recover: Recover)
    requires Sound(crypto, recover)
    ensures Clean(DigestLine(crypto, r))
    ensures DigestBytes(DigestLine(crypto, r)) == Decoded(crypto.sign(DigestOf(r.newOracle), r.oldKey))
  {
    var sig := crypto.sign(DigestOf(r.newOracle), r.oldKey);
    JoinedDecimals(sig);
    BytesRoundTrip(sig);
  }

  lemma Nest(a: string, b: string, c: string, d: string, rest: string)
    ensures a + "\n" + (b + "\n" + (c + "\n" + (d + "\n"))) + rest
         == a + "\n" + (b + "\n" + (c + "\n" + (d + "\n" + rest)))
  {}

  lemma MarksClean()
    ensures Clean(BEGIN_LINE) && Clean(END_LINE)
  {}

  lemma RecordLines(crypto: Crypto, r: Rotation, recover: Recover, rest: string)
    requires Sound(crypto, recover) && '\n' !in r.timestamp && |r.timestamp| + 176 < MAX_LINE
    ensures Lines(PrintRecord(crypto, r) + rest)
         == [InfoLine(crypto, r)] + ([BEGIN_LINE] + ([DigestLine(crypto, r)] + ([END_LINE] + Lines(rest))))
  {
    hide InfoLine, DigestLine, Lines, Clean;
    MarksClean();
    var i, d := InfoLine(crypto, r), DigestLine(crypto, r);
    InfoLineClean(crypto, r);
    DigestLineClean(crypto, r, recover);
    var r3 := END_LINE + "\n" + rest;
    var r2 := d + "\n" + r3;
    var r1 := BEGIN_LINE + "\n" + r2;
    Nest(i, BEGIN_LINE, d, END_LINE, rest);
    LinesHead(i, r1);
    LinesHead(BEGIN_LINE, r2);
    LinesHead(d, r3);
    LinesHead(END_LINE, rest);
  }

  /** Reading one printed record in the info phase takes the parser back to it, one update richer. */
  lemma RecordParsed(crypto: Crypto, r: Rotation, recover: Recover, p: Parser, rest: string) returns (q: Parser)
    requires Sound(crypto, recover) && Carries(r.timestamp) && p.phase == ParseInfo
    ensures OnLines(recover, p, Lines(PrintRecord(crypto, r) + rest)) == OnLines(recover, q, Lines(rest))
    ensures q.phase == ParseInfo && q.updates == p.updates + [UpdateOf(crypto, r)]
  {
    hide InfoLine, DigestLine, MatchInfo, DigestBytes, Show, HexToAddress, OnLine, OnLines, Lines, PrintRecord;
    var i, d, u := InfoLine(crypto, r), DigestLine(crypto, r), UpdateOf(crypto, r);
    InfoLineClean(crypto, r);
    DigestLineClean(crypto, r, recover);
    ShowIsWord(crypto, r.contract);
    ShowIsWord(crypto, crypto.addressOf(r.oldKey));
    ShowIsWord(crypto, r.newOracle);
    var p1 := Parser(ParseBeginDigest, r.contract, u.oldOracle, r.newOracle, p.updates);
    var p2 := p1.(phase := ParseDigest);
    var p3 := p1.(phase := ParseEndDigest, updates := p.updates + [u]);
    q := p3.(phase := ParseInfo);
    InfoStep(recover, p, i, Show(crypto, r.contract), Show(crypto, crypto.addressOf(r.oldKey)), Show(crypto, r.newOracle));
    MarkSteps(recover, p1, p3);
    DigestStep(recover, p2, d, crypto.sign(DigestOf(r.newOracle), r.oldKey));
    RecordLines(crypto, r, recover, rest);
    var l3 := [END_LINE] + Lines(rest);
    var l2 := [d] + l3;
    OnLinesCons(recover, p, i, [BEGIN_LINE] + l2);
    OnLinesCons(recover, p1, BEGIN_LINE, l2);
    OnLinesCons(recover, p2, d, l3);
    OnLinesCons(recover, p3, END_LINE, Lines(rest));
  }

  lemma OnLinesCons(recover: Recover, p: Parser, line: string, rest: seq<string>)
    ensures OnLine(recover, p, line).Go? ==>
              OnLines(recover, p, [line] + rest) == OnLines(recover, OnLine(recover, p, line).parser, rest)
  {
    assert ([line] + rest)[1..] == rest;
  }

  lemma InfoStep(recover: Recover, p: Parser, line: string, c: string, o: string, n: string)
    requires p.phase == ParseInfo && MatchInfo(line) == Info(c, o, n)
    ensures OnLine(recover, p, line) == Go(Parser(ParseBeginDigest, HexToAddress(c), HexToAddress(o), HexToAddress(n), p.updates))
  {}

  lemma MarkSteps(recover: Recover, p1: Parser, p3: Parser)
    requires p1.phase == ParseBeginDigest && p3.phase == ParseEndDigest
    ensures OnLine(recover, p1, BEGIN_LINE) == Go(p1.(phase := ParseDigest))
    ensures OnLine(recover, p3, END_LINE) == Go(p3.(phase := ParseInfo))
  {}

  lemma DigestStep(recover: Recover, p: Parser, line: string, sig: seq<byte>)
    requires p.phase == ParseDigest && DigestBytes(line) == Decoded(sig) && Endorsed(recover, sig, p.oldOracle, p.newOracle)
    ensures OnLine(recover, p, line)
         == Go(p.(phase := ParseEndDigest, updates := p.updates + [OracleUpdate(p.contract, p.oldOracle, p.newOracle)]))
  {}

  lemma {:induction false} PrintAllHead(crypto: Crypto, rs: seq<Rotation>)
    requires rs != []
    ensures PrintAll(crypto, rs) == PrintRecord(crypto, rs[0]) + PrintAll(crypto, rs[1..])
  {
    hide PrintRecord;
    if |rs| > 1 {
      PrintAllHead(crypto, rs[..|rs| - 1]);
      assert rs[..|rs| - 1][1..] == rs[1..][..|rs| - 2];
    } else {
      assert PrintAll(crypto, rs[..0]) == "" && PrintAll(crypto, rs[1..]) == "";
    }
  }

  lemma UpdatesHead(crypto: Crypto, rs: seq<Rotation>, updates: seq<OracleUpdate>)
    requires rs != []
    ensures updates + [UpdateOf(crypto, rs[0])] + UpdatesOf(crypto, rs[1..]) == updates + UpdatesOf(crypto, rs)
  {}

  lemma NothingToParse(recover: Recover, p: Parser)
    ensures OnLines(recover, p, Lines("")) == Parsed(p.updates)
  {}

  /** A record without a timestamp is an error. */
  lemma EmptyTimestampFails(crypto: Crypto, r: Rotation, recover: Recover, p: Parser, rest: string)
    requires Sound(crypto, recover) && r.timestamp == "" && p.phase == ParseInfo
    ensures OnLines(recover, p, Lines(PrintRecord(crypto, r) + rest)) == Failed
  {
    hide InfoLine, DigestLine, PrintRecord, Lines, MatchInfo, Sound;
    InfoLineClean(crypto, r);
    RecordLines(crypto, r, recover, rest);
  }

  /** A record whose info line does not fit the scanner's buffer is not an error: the parser stops
      there and reports success without it and all that follow. */
  lemma LongLineIgnored(crypto: Crypto, r: Rotation, recover: Recover, p: Parser, rest: string)
    requires '\n' !in r.timestamp && |r.timestamp| + 176 >= MAX_LINE
    ensures OnLines(recover, p, Lines(PrintRecord(crypto, r) + rest)) == Parsed(p.updates)
  {
    hide Show;
    ShowIsWord(crypto, r.contract);
    ShowIsWord(crypto, crypto.addressOf(r.oldKey));
    ShowIsWord(crypto, r.newOracle);
    assert '\n' !in INTRO && '\n' !in FROM && '\n' !in TO && |INTRO| == 38 && |FROM| == 6 && |TO| == 4;
    var tail := BEGIN_LINE + "\n" + (DigestLine(crypto, r) + "\n" + (END_LINE + "\n"));
    LineTooLong(InfoLine(crypto, r), tail + rest);
    assert PrintRecord(crypto, r) + rest == InfoLine(crypto, r) + "\n" + (tail + rest);
  }

  lemma LineTooLong(line: string, rest: string)
    requires '\n' !in line && |line| >= MAX_LINE
    ensures Lines(line + "\n" + rest) == []
  {
    LineEndAt(line, rest);
  }

  /** The info line of one record over the digest of another. */
  function SplicedRecord(crypto: Crypto, info: Rotation, signed: Rotation): string {
    InfoLine(crypto, info) + "\n" + (BEGIN_LINE + "\n" + (DigestLine(crypto, signed) + "\n" + (END_LINE + "\n")))
  }

  /** A record whose info line was changed, to another new oracle or another old one, is refused unless the
      signature recovers over that new oracle's digest to that old oracle. */
  lemma ForgeryRefused(crypto: Crypto, info: Rotation, signed: Rotation, recover: Recover, p: Parser, rest: string)
    requires Sound(crypto, recover) && Carries(info.timestamp) && p.phase == ParseInfo
    requires recover(DigestOf(info.newOracle), crypto.sign(DigestOf(signed.newOracle), signed.oldKey))
      != Some(crypto.addressOf(info.oldKey))
    ensures OnLines(recover, p, Lines(SplicedRecord(crypto, info, signed) + rest)) == Failed
  {
    hide InfoLine, DigestLine, OnLine, Lines, MatchInfo, DigestBytes, HexToAddress, Sound, Show, PrintBytes;
    InfoLineClean(crypto, info);
    DigestLineClean(crypto, signed, recover);
    MarksClean();
    var i, d := InfoLine(crypto, info), DigestLine(crypto, signed);
    Nest(i, BEGIN_LINE, d, END_LINE, rest);
    LinesHead(i, BEGIN_LINE + "\n" + (d + "\n" + (END_LINE + "\n" + rest)));
    LinesHead(BEGIN_LINE, d + "\n" + (END_LINE + "\n" + rest));
    LinesHead(d, END_LINE + "\n" + rest);
    ShowIsWord(crypto, info.contract);
    ShowIsWord(crypto, crypto.addressOf(info.oldKey));
    ShowIsWord(crypto, info.newOracle);
    InfoStep(recover, p, i, Show(crypto, info.contract), Show(crypto, crypto.addressOf(info.oldKey)), Show(crypto, info.newOracle));
    var p1 := Parser(ParseBeginDigest, info.contract, crypto.addressOf(info.oldKey), info.newOracle, p.updates);
    MarkSteps(recover, p1, p1.(phase := ParseEndDigest));
    var tail := Lines(END_LINE + "\n" + rest);
    OnLinesCons(recover, p, i, [BEGIN_LINE] + ([d] + tail));
    OnLinesCons(recover, p1, BEGIN_LINE, [d] + tail);
    DigestRefused(recover, p1.(phase := ParseDigest), d, crypto.sign(DigestOf(signed.newOracle), signed.oldKey), tail);
  }

  lemma DigestRefused(recover: Recover, p: Parser, line: string, sig: seq<byte>, rest: seq<string>)
    requires p.phase == ParseDigest && DigestBytes(line) == Decoded(sig) && !Endorsed(recover, sig, p.oldOracle, p.newOracle)
    ensures OnLines(recover, p, [line] + rest) == Failed
  {}

  /** How many records come before the first whose timestamp its line cannot carry. */
  function Carried(rs: seq<Rotation>): (n: nat)
    ensures n <= |rs| && forall i :: 0 <= i < n ==> Carries(rs[i].timestamp)
    ensures n < |rs| ==> !Carries(rs[n].timestamp)
  {
    if rs == [] || !Carries(rs[0].timestamp) then 0 else 1 + Carried(rs[1..])
  }

  /** What parsing printed records comes to when the updates before them are given. */
  function ParsedRecords(crypto: Crypto, rs: seq<Rotation>, updates: seq<OracleUpdate>): Outcome {
    var n := Carried(rs);
    if n < |rs| && rs[n].timestamp == "" then Failed else Parsed(updates + UpdatesOf(crypto, rs[..n]))
  }

  lemma {:induction false} AllParsed(crypto: Crypto, rs: seq<Rotation>, recover: Recover, p: Parser)
    requires Sound(crypto, recover) && p.phase == ParseInfo
    requires forall i :: 0 <= i < |rs| ==> '\n' !in rs[i].timestamp
    ensures OnLines(recover, p, Lines(PrintAll(crypto, rs))) == ParsedRecords(crypto, rs, p.updates)
    decreases |rs|
  {
    hide PrintRecord, InfoLine, DigestLine, OnLine, OnLines, Lines, UpdateOf, Sound;
    if rs == [] {
      NothingToParse(recover, p);
      assert p.updates + UpdatesOf(crypto, []) == p.updates;
    } else {
      var rest := PrintAll(crypto, rs[1..]);
      PrintAllHead(crypto, rs);
      if Carries(rs[0].timestamp) {
        var q := RecordParsed(crypto, rs[0], recover, p, rest);
        AllParsed(crypto, rs[1..], recover, q);
        OneMoreRecord(crypto, rs, p.updates);
      } else if rs[0].timestamp == "" {
        EmptyTimestampFails(crypto, rs[0], recover, p, rest);
      } else {
        LongLineIgnored(crypto, rs[0], recover, p, rest);
        assert p.updates + UpdatesOf(crypto, []) == p.updates;
      }
    }
  }

  lemma OneMoreRecord(crypto: Crypto, rs: seq<Rotation>, updates: seq<OracleUpdate>)
    requires rs != [] && Carries(rs[0].timestamp)
    ensures ParsedRecords(crypto, rs, updates)
         == ParsedRecords(crypto, rs[1..], updates + [UpdateOf(crypto, rs[0])])
  {
    hide Carries;
    var n := Carried(rs);
    assert rs[..n][1..] == rs[1..][..n - 1];
    UpdatesHead(crypto, rs[..n], updates);
  }

  /** For timestamps without a line break, what parsing the printed records comes to: all of their updates
      in order, up to the first record whose timestamp its line cannot carry; there an error if the
      timestamp is empty, and otherwise a silent stop. */
  lemma LogParsed(crypto: Crypto, rs: seq<Rotation>, recover: Recover)
    requires Sound(crypto, recover)
    requires forall i :: 0 <= i < |rs| ==> '\n' !in rs[i].timestamp
    ensures Parse(recover, PrintAll(crypto, rs)) == ParsedRecords(crypto, rs, [])
  {
    AllParsed(crypto, rs, recover, Parser(ParseInfo, NO_ADDRESS, NO_ADDRESS, NO_ADDRESS, []));
  }

  /** So the records' own updates come back, in order, if and only if every timestamp can be carried. */
  lemma LogRoundTrip(crypto: Crypto, rs: seq<Rotation>, recover: Recover)
    requires Sound(crypto, recover)
    requires forall i :: 0 <= i < |rs| ==> '\n' !in rs[i].timestamp
    ensures Parse(recover, PrintAll(crypto, rs)) == Parsed(UpdatesOf(crypto, rs))
       <==> forall i :: 0 <= i < |rs| ==> Carries(rs[i].timestamp)
  {
    hide Parse, PrintAll, Sound, Carries;
    LogParsed(crypto, rs, recover);
    var n := Carried(rs);
    assert [] + UpdatesOf(crypto, rs[..n]) == UpdatesOf(crypto, rs[..n]);
    assert n == |rs| ==> rs[..n] == rs;
  }
}
