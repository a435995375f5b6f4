/** The text forms used in the key-rotation log: hexadecimal addresses, decimal byte lists, lines. */
module OracleText {
  import opened Bytes
  import opened Options

  // ---- addresses

  type Address = a: seq<byte> | |a| == 20 witness seq(20, _ => 0)

  const LOWER := "0123456789abcdef"
  const UPPER := "0123456789ABCDEF"

  function HexChar(n: nat, upper: bool): char
    requires n < 16
  {
    if upper then UPPER[n] else LOWER[n]
  }

  /** The value of a hexadecimal digit of either case. */
  function HexValue(c: char): (v: Option<nat>)
    ensures v.Some? ==> v.value < 16
  {
    if '0' <= c <= '9' then Some(c as nat - '0' as nat)
    else if 'a' <= c <= 'f' then Some(c as nat - 'a' as nat + 10)
    else if 'A' <= c <= 'F' then Some(c as nat - 'A' as nat + 10)
    else None
  }

  lemma HexCharRoundTrip(n: nat, upper: bool)
    requires n < 16
    ensures HexValue(HexChar(n, upper)) == Some(n)
  {
    if n == 0 {} else if n == 1 {} else if n == 2 {} else if n == 3 {} else if n == 4 {} else if n == 5 {}
    else if n == 6 {} else if n == 7 {} else if n == 8 {} else if n == 9 {} else if n == 10 {} else if n == 11 {}
    else if n == 12 {} else if n == 13 {} else if n == 14 {} else {}
  }

  /** `upper` says which digits the checksum capitalises. */
  function HexBytes(bs: seq<byte>, upper: nat -> bool): (s: string)
    ensures |s| == 2 * |bs|
  {
    if bs == [] then "" else
      var last := |bs| - 1;
      HexBytes(bs[..last], upper) + HexPair(bs[last], upper(2 * last), upper(2 * last + 1))
  }

  function HexPair(b: byte, u: bool, v: bool): (s: string)
    ensures |s| == 2
  {
    [HexChar(b as nat / 16, u), HexChar(b as nat % 16, v)]
  }

  function PrintAddress(a: Address, upper: nat -> bool): string {
    "0x" + HexBytes(a, upper)
  }

  /** hex.DecodeString with its error ignored: the bytes before the first bad pair. */
  function DecodeHex(s: string): seq<byte> {
    if |s| < 2 then [] else
      match (HexValue(s[0]), HexValue(s[1]))
      case (Some(high), Some(low)) => [(16 * high + low) as byte] + DecodeHex(s[2..])
      case _ => []
  }

  function FromHex(s: string): seq<byte> {
    var digits := if |s| >= 2 && s[0] == '0' && (s[1] == 'x' || s[1] == 'X') then s[2..] else s;
    DecodeHex(if |digits| % 2 == 1 then "0" + digits else digits)
  }

  /** The last 20 bytes, padded with zeros on the left. */
  function BytesToAddress(b: seq<byte>): Address {
    if |b| >= 20 then b[|b| - 20..] else seq(20 - |b|, _ => 0) + b
  }

  function HexToAddress(s: string): Address {
    BytesToAddress(FromHex(s))
  }

  lemma {:induction false} DecodeHexConcat(bs: seq<byte>, upper: nat -> bool, rest: string)
    ensures DecodeHex(HexBytes(bs, upper) + rest) == bs + DecodeHex(rest)
  {
    hide HexPair, DecodeHex;
    if bs == [] {
      assert HexBytes(bs, upper) + rest == rest;
    } else {
      var last := |bs| - 1;
      var pair := HexPair(bs[last], upper(2 * last), upper(2 * last + 1));
      DecodeHexConcat(bs[..last], upper, pair + rest);
      DecodePair(bs[last], upper(2 * last), upper(2 * last + 1), rest);
      assert HexBytes(bs, upper) + rest == HexBytes(bs[..last], upper) + (pair + rest);
      assert bs == bs[..last] + [bs[last]];
      assert bs[..last] + ([bs[last]] + DecodeHex(rest)) == bs + DecodeHex(rest);
    }
  }

  lemma DecodePair(b: byte, u: bool, v: bool, rest: string)
    ensures DecodeHex(HexPair(b, u, v) + rest) == [b] + DecodeHex(rest)
  {
    HexCharRoundTrip(b as nat / 16, u);
    HexCharRoundTrip(b as nat % 16, v);
    assert (HexPair(b, u, v) + rest)[2..] == rest;
  }

  lemma AddressRoundTrip(a: Address, upper: nat -> bool)
    ensures HexToAddress(PrintAddress(a, upper)) == a
  {
    var s := PrintAddress(a, upper);
    assert s[2..] == HexBytes(a, upper);
    DecodeHexConcat(a, upper, "");
    assert HexBytes(a, upper) + "" == HexBytes(a, upper);
    assert a + [] == a;
  }

  /** What the digits stand for, high digit first. */
  lemma HexDigits(n: nat, m: nat)
    requires n < 10 && m < 6
    ensures HexValue(('0' as nat + n) as char) == Some(n)
    ensures HexValue(('a' as nat + m) as char) == Some(10 + m) == HexValue(('A' as nat + m) as char)
    ensures DecodeHex(['1', ('0' as nat + n) as char]) == [(16 + n) as byte]
    ensures HexChar(n, true) == HexChar(n, false) == ('0' as nat + n) as char
    ensures HexChar(10 + m, false) == ('a' as nat + m) as char && HexChar(10 + m, true) == ('A' as nat + m) as char
  {}

  /** Short hex is read as a number: padded with zeros on the left; of long hex the end is read. */
  lemma AddressIsNumber(b: seq<byte>)
    ensures |b| <= 20 ==> BytesToAddress(b)[20 - |b|..] == b && forall i :: 0 <= i < 20 - |b| ==> BytesToAddress(b)[i] == 0
    ensures |b| >= 20 ==> BytesToAddress(b) == b[|b| - 20..]
    ensures FromHex("0x1f2") == FromHex("01f2") == [0x01, 0xf2]
  {
    assert "0x1f2"[2..] == "1f2" && "0" + "1f2" == "01f2";
    assert DecodeHex("f2") == [0xf2] + DecodeHex("f2"[2..]) == [0xf2];
    assert "01f2"[2..] == "f2";
    assert DecodeHex("01f2") == [0x01] + DecodeHex("f2");
  }

  // ---- words

  predicate IsWordChar(c: char) {
    '0' <= c <= '9' || 'a' <= c <= 'z' || 'A' <= c <= 'Z' || c == '_'
  }

  predicate IsWord(s: string) {
    s != "" && forall i :: 0 <= i < |s| ==> IsWordChar(s[i])
  }

  lemma HexCharIsWord(n: nat, upper: bool)
    requires n < 16
    ensures IsWordChar(HexChar(n, upper))
  {
    HexCharRoundTrip(n, upper);
  }

  lemma {:induction false} HexBytesAreWord(bs: seq<byte>, upper: nat -> bool)
    ensures forall i :: 0 <= i < |HexBytes(bs, upper)| ==> IsWordChar(HexBytes(bs, upper)[i])
  {
    if bs != [] {
      var last := |bs| - 1;
      HexBytesAreWord(bs[..last], upper);
      HexCharIsWord(bs[last] as nat / 16, upper(2 * last));
      HexCharIsWord(bs[last] as nat % 16, upper(2 * last + 1));
    }
  }

  lemma AddressIsWord(a: Address, upper: nat -> bool)
    ensures IsWord(PrintAddress(a, upper)) && |PrintAddress(a, upper)| == 42
  {
    HexBytesAreWord(a, upper);
  }

  // ---- decimal bytes

  function Digit(n: nat): char
    requires n < 10
  {
    ('0' as nat + n) as char
  }

  function PrintDecimal(n: nat): (s: string)
    ensures s != ""
  {
    if n < 10 then [Digit(n)] else PrintDecimal(n / 10) + [Digit(n % 10)]
  }

  function ParseDigits(s: string): Option<nat> {
    if s == "" then Some(0) else
      var last := |s| - 1;
      if '0' <= s[last] <= '9' then
        match ParseDigits(s[..last])
        case Some(n) => Some(n * 10 + (s[last] as nat - '0' as nat))
        case None => None
      else None
  }

  const INT64_MAX := 0x7fff_ffff_ffff_ffff

  /** strconv.Atoi. */
  function Atoi(s: string): Option<int> {
    var signed := s != "" && (s[0] == '-' || s[0] == '+');
    var digits := if signed then s[1..] else s;
    if digits == "" then None else
      match ParseDigits(digits)
      case None => None
      case Some(n) =>
        var value: int := 0 + (if signed && s[0] == '-' then -1 else 1) * n;
        if -INT64_MAX - 1 <= value <= INT64_MAX then Some(value) else None
  }

  lemma {:induction false} DecimalRoundTrip(n: nat)
    ensures ParseDigits(PrintDecimal(n)) == Some(n)
    ensures forall i :: 0 <= i < |PrintDecimal(n)| ==> '0' <= PrintDecimal(n)[i] <= '9'
  {
    if n < 10 {
      assert [Digit(n)][..0] == "";
    } else {
      DecimalRoundTrip(n / 10);
      assert PrintDecimal(n)[..|PrintDecimal(n)| - 1] == PrintDecimal(n / 10);
    }
  }

  /** Atoi reads what fits 64 bits, with its sign. */
  lemma AtoiExactly(n: int)
    requires n >= 0
    ensures Atoi(PrintDecimal(n)) == if n <= INT64_MAX then Some(n) else None
    ensures Atoi("-" + PrintDecimal(n)) == if n <= INT64_MAX + 1 then Some(-n) else None
    ensures Atoi("") == Atoi("-") == None
  {
    DecimalRoundTrip(n);
    assert ("-" + PrintDecimal(n))[1..] == PrintDecimal(n);
    assert '0' <= PrintDecimal(n)[0] <= '9';
  }

  /** Decimals are written high digit first. */
  lemma DecimalDigits(n: nat, d: nat)
    requires d < 10
    ensures PrintDecimal(d) == [('0' as nat + d) as char]
    ensures n > 0 ==> PrintDecimal(10 * n + d) == PrintDecimal(n) + [('0' as nat + d) as char]
  {}

  lemma AtoiByte(b: byte)
    ensures Atoi(PrintDecimal(b as nat)) == Some(b as int) && |PrintDecimal(b as nat)| <= 3
  {
    DecimalRoundTrip(b as nat);
    var n := b as nat;
    assert |PrintDecimal(n / 100)| == 1;
    assert n >= 10 ==> PrintDecimal(n) == PrintDecimal(n / 10) + [Digit(n % 10)];
    assert n >= 100 ==> PrintDecimal(n / 10) == PrintDecimal(n / 100) + [Digit(n / 10 % 10)];
  }

  // ---- lists separated by spaces

  function Join(parts: seq<string>): string {
    if parts == [] then "" else if |parts| == 1 then parts[0] else parts[0] + " " + Join(parts[1..])
  }

  /** strings.Split(s, " "). */
  function Split(s: string): (parts: seq<string>)
    ensures |parts| > 0
    decreases |s|
  {
    if s == "" then [""] else
      var rest := Split(s[1..]);
      if s[0] == ' ' then [""] + rest else [[s[0]] + rest[0]] + rest[1..]
  }

  lemma {:induction false} SplitAtSpace(p: string, s: string)
    requires ' ' !in p
    ensures Split(p + " " + s) == [p] + Split(s)
    ensures Split(p) == [p]
    decreases |p|
  {
    if p == "" {
      assert (p + " " + s)[1..] == s;
    } else {
      SplitAtSpace(p[1..], s);
      assert (p + " " + s)[1..] == p[1..] + " " + s;
      assert p == [p[0]] + p[1..];
    }
  }

  lemma {:induction false} SplitRoundTrip(parts: seq<string>)
    requires parts != [] && forall i :: 0 <= i < |parts| ==> ' ' !in parts[i]
    ensures Split(Join(parts)) == parts
  {
    if |parts| == 1 {
      SplitAtSpace(parts[0], "");
    } else {
      SplitRoundTrip(parts[1..]);
      SplitAtSpace(parts[0], Join(parts[1..]));
    }
  }

  // ---- lines

  const MAX_LINE := 65536

  /** Up to the first newline, or everything. */
  function LineEnd(text: string): (i: nat)
    ensures i <= |text| && '\n' !in text[..i] && (i < |text| ==> text[i] == '\n')
  {
    if text == "" || text[0] == '\n' then 0 else
      assert text[..1 + LineEnd(text[1..])] == [text[0]] + text[1..][..LineEnd(text[1..])];
      1 + LineEnd(text[1..])
  }

  function DropReturn(line: string): string {
    if line != "" && line[|line| - 1] == '\r' then line[..|line| - 1] else line
  }

  /** What bufio.Scanner yields: it stops silently at a line that does not fit its buffer. */
  function Lines(text: string): seq<string>
    decreases |text|
  {
    if text == "" then [] else
      var i := LineEnd(text);
      if i >= MAX_LINE then []
      else if i == |text| then [DropReturn(text)]
      else [DropReturn(text[..i])] + Lines(text[i + 1..])
  }

  /** A line that survives being written and scanned. */
  predicate Clean(line: string) {
    '\n' !in line && |line| < MAX_LINE && (line != "" ==> line[|line| - 1] != '\r')
  }

  lemma {:induction false} LineEndAt(line: string, rest: string)
    requires '\n' !in line
    ensures LineEnd(line + "\n" + rest) == |line|
    decreases |line|
  {
    if line != "" {
      LineEndAt(line[1..], rest);
      assert (line + "\n" + rest)[1..] == line[1..] + "\n" + rest;
      assert line[0] in line;
    }
  }

  lemma LinesHead(line: string, rest: string)
    requires Clean(line)
    ensures Lines(line + "\n" + rest) == [line] + Lines(rest)
  {
    var text := line + "\n" + rest;
    LineEndAt(line, rest);
    assert text[..|line|] == line && text[|line| + 1..] == rest;
  }

  /** A carriage return before the line break is dropped, and the last line needs no line break. */
  lemma LinesEnds(line: string, rest: string)
    requires Clean(line) && |line| + 1 < MAX_LINE
    ensures Lines(line + "\r" + "\n" + rest) == [line] + Lines(rest)
    ensures line != "" ==> Lines(line) == [line] == Lines(line + "\r")
  {
    var text := line + "\r" + "\n" + rest;
    assert '\n' !in line + "\r";
    LineEndAt(line + "\r", rest);
    assert text[..|line| + 1] == line + "\r" && text[|line| + 2..] == rest;
    assert DropReturn(line + "\r") == line;
    NoLineEnd(line);
    NoLineEnd(line + "\r");
  }

  lemma {:induction false} NoLineEnd(line: string)
    requires '\n' !in line
    ensures LineEnd(line) == |line|
  {
    if line != "" {
      assert line[0] in line;
      NoLineEnd(line[1..]);
    }
  }
}
