/** Drawing distinct random integers by rejection (lib/util/random.go). */
module RandomIntegers {
  import opened Draws

  const UINT32_SIZE := 0x1_0000_0000

  /** TooMany is the fatal log, BadLength and EmptyRange are the panics of make and rand.Int,
      Starved means the loop is still rejecting when the recorded entropy ends. */
  datatype Outcome = TooMany | BadLength | EmptyRange | Starved | Drawn(numbers: Draw)

  /** What the rejection loop makes of a stream of candidates once `drawn` has been kept. */
  function Accept(drawn: Draw, amount: nat, candidates: seq<nat>): (o: Outcome)
    requires |drawn| <= amount
    ensures o.Starved? || (o.Drawn? && |o.numbers| == amount && drawn <= o.numbers)
    decreases |candidates|
  {
    if |drawn| == amount then Drawn(drawn)
    else if candidates == [] then Starved
    else if candidates[0] in drawn then Accept(drawn, amount, candidates[1..])
    else Accept(drawn + [candidates[0]], amount, candidates[1..])
  }

  /** max - min + 1 in 32-bit unsigned arithmetic. */
  function Span(min: nat, max: nat): (n: nat)
    ensures min <= max < UINT32_SIZE ==> n == if max - min == UINT32_SIZE - 1 then 0 else max - min + 1
    ensures max < min < UINT32_SIZE ==> n == if min == max + 1 then 0 else UINT32_SIZE - (min - max - 1)
  {
    (max - min + 1) % UINT32_SIZE
  }

  predicate Within(entropy: seq<nat>, min: nat, max: nat) {
    forall i :: 0 <= i < |entropy| ==> entropy[i] <= max - min
  }

  function Shift(entropy: seq<nat>, min: nat): (s: seq<nat>)
    ensures |s| == |entropy| && forall i :: 0 <= i < |s| ==> s[i] == entropy[i] + min
  {
    seq(|entropy|, i requires 0 <= i < |entropy| => entropy[i] + min)
  }

  lemma {:induction false} AcceptKeepsDistinct(drawn: Draw, amount: nat, candidates: seq<nat>, lo: nat, hi: nat)
    requires |drawn| <= amount
    requires Good(drawn, lo, hi) && forall i :: 0 <= i < |candidates| ==> lo <= candidates[i] <= hi
    ensures Accept(drawn, amount, candidates).Drawn? ==> Good(Accept(drawn, amount, candidates).numbers, lo, hi)
    decreases |candidates|
  {
    if |drawn| < amount && candidates != [] {
      var next := if candidates[0] in drawn then drawn else drawn + [candidates[0]];
      AcceptKeepsDistinct(next, amount, candidates[1..], lo, hi);
    }
  }

  /** Distinct numbers between lo and hi, inclusive on both ends. */
  predicate Good(s: Draw, lo: nat, hi: nat) {
    && (forall i :: 0 <= i < |s| ==> lo <= s[i] <= hi)
    && (forall i, j :: 0 <= i < j < |s| ==> s[i] != s[j])
  }

  method IsDuplicate(numbers: array<nat>, i: nat) returns (dup: bool)
    requires i < numbers.Length
    ensures dup <==> numbers[i] in numbers[..i]
  {
    dup := false;
    for j := 0 to i
      invariant !dup && numbers[i] !in numbers[..j]
    {
      if numbers[i] == numbers[j] {
        return true;
      }
    }
  }

  lemma AcceptNext(kept: Draw, amount: nat, stream: seq<nat>, used: nat)
    requires |kept| < amount && used < |stream|
    ensures Accept(kept, amount, stream[used..])
         == Accept(if stream[used] in kept then kept else kept + [stream[used]], amount, stream[used + 1..])
  {
    assert stream[used..][1..] == stream[used + 1..];
  }

  lemma AcceptWhole(drawn: Draw, amount: nat, candidates: seq<nat>)
    requires |drawn| <= amount
    ensures |drawn| == amount ==> Accept(drawn, amount, candidates) == Drawn(drawn)
    ensures |drawn| < amount && candidates == [] ==> Accept(drawn, amount, candidates) == Starved
  {}

  lemma ShiftAt(entropy: seq<nat>, min: nat, i: nat)
    requires i < |entropy|
    ensures |Shift(entropy, min)| == |entropy| && Shift(entropy, min)[i] == entropy[i] + min
  {}

  lemma StreamFacts(entropy: seq<nat>, min: nat, max: nat, amount: nat)
    requires Within(entropy, min, max)
    ensures |Shift(entropy, min)| == |entropy|
    ensures entropy != [] ==> min <= max
    ensures var o := Accept([], amount, Shift(entropy, min));
            o.Drawn? ==> |o.numbers| == amount && Good(o.numbers, min, max)
  {
    AcceptKeepsDistinct([], amount, Shift(entropy, min), min, max);
  }

  /** The j-th number is the first candidate that is not among the numbers before it. */
  ghost predicate FirstNew(numbers: Draw, j: nat, candidates: seq<nat>)
    requires j < |numbers|
  {
    && numbers[j] !in numbers[..j]
    && exists p :: 0 <= p < |candidates| && candidates[p] == numbers[j]
         && forall q :: 0 <= q < p ==> candidates[q] in numbers[..j]
  }

  /** A draw is completed if and only if there are enough distinct candidates, and then each number is the
      first candidate not among the earlier ones. */
  lemma {:induction false} AcceptExactly(drawn: Draw, amount: nat, candidates: seq<nat>)
    requires |drawn| <= amount && forall i, j :: 0 <= i < j < |drawn| ==> drawn[i] != drawn[j]
    ensures var o := Accept(drawn, amount, candidates);
            && (o.Starved? <==> |Elements(drawn + candidates)| < amount)
            && (o.Drawn? ==> forall j :: |drawn| <= j < amount ==> FirstNew(o.numbers, j, candidates))
    decreases |candidates|
  {
    var o := Accept(drawn, amount, candidates);
    if |drawn| == amount {
      AtLeastDrawn(drawn, candidates);
    } else if candidates == [] {
      assert drawn + candidates == drawn;
      SizeOfDistinct(drawn);
    } else {
      var c, tail := candidates[0], candidates[1..];
      var next := if c in drawn then drawn else drawn + [c];
      AcceptExactly(next, amount, tail);
      assert Elements(drawn + candidates) == Elements(next + tail) by { SameElements(drawn, c, tail); }
      if o.Drawn? {
        forall j | |drawn| <= j < amount ensures FirstNew(o.numbers, j, candidates) {
          FirstNewEarlier(o.numbers, j, drawn, candidates);
        }
      }
    }
  }

  lemma FirstNewEarlier(numbers: Draw, j: nat, drawn: Draw, candidates: seq<nat>)
    requires candidates != [] && |drawn| <= j < |numbers|
    requires var next := if candidates[0] in drawn then drawn else drawn + [candidates[0]];
             next <= numbers && (j >= |next| ==> FirstNew(numbers, j, candidates[1..]))
    ensures FirstNew(numbers, j, candidates)
  {
    var next := if candidates[0] in drawn then drawn else drawn + [candidates[0]];
    assert drawn == next[..|drawn|] == numbers[..|drawn|];
    if j < |next| {
      assert numbers[j] == next[j] == candidates[0] && numbers[..j] == drawn;
    } else {
      var p :| 0 <= p < |candidates| - 1 && candidates[1..][p] == numbers[j]
        && forall q :: 0 <= q < p ==> candidates[1..][q] in numbers[..j];
      assert numbers[..|next|] == next <= numbers[..j];
      assert candidates[0] in next;
      forall q | 0 <= q < p + 1 ensures candidates[q] in numbers[..j] {
        if q > 0 {
          assert candidates[q] == candidates[1..][q - 1];
        }
      }
    }
  }

  lemma SameElements(drawn: Draw, c: nat, tail: seq<nat>)
    ensures Elements(drawn + ([c] + tail)) == Elements((if c in drawn then drawn else drawn + [c]) + tail)
  {}

  lemma {:induction false} SizeOfDistinct(s: Draw)
    requires forall i, j :: 0 <= i < j < |s| ==> s[i] != s[j]
    ensures |Elements(s)| == |s|
  {
    if s != [] {
      SizeOfDistinct(s[..|s| - 1]);
      ElementsLast(s);
    }
  }

  lemma AtLeastDrawn(drawn: Draw, candidates: seq<nat>)
    requires forall i, j :: 0 <= i < j < |drawn| ==> drawn[i] != drawn[j]
    ensures |Elements(drawn + candidates)| >= |drawn|
  {
    SizeOfDistinct(drawn);
    SubsetSize(Elements(drawn), Elements(drawn + candidates));
  }

  lemma {:induction false} SubsetSize(a: set<nat>, b: set<nat>)
    requires a <= b
    ensures |a| <= |b|
    decreases b
  {
    if b != {} {
      var x :| x in b;
      SubsetSize(a - {x}, b - {x});
    }
  }

  /** `entropy` lists what successive rand.Int calls return, each in [0, max - min]. */
  method RandomIntegers(amount: int, min: nat, max: nat, entropy: seq<nat>) returns (o: Outcome)
    requires min < UINT32_SIZE && max < UINT32_SIZE
    requires Within(entropy, min, max)
    ensures o.TooMany? <==> amount > Span(min, max)
    ensures o.BadLength? <==> amount < 0
    ensures o.EmptyRange? <==> max < min && 0 < amount <= Span(min, max)
    ensures !o.TooMany? && !o.BadLength? && !o.EmptyRange? ==> o == Accept([], amount, Shift(entropy, min))
    ensures o.Drawn? ==> |o.numbers| == amount && Good(o.numbers, min, max)
  {
    hide Accept, Shift, Good, Span, Within;
    if amount > Span(min, max) {
      return TooMany;
    }
    if amount < 0 {
      return BadLength;
    }
    ghost var stream := Shift(entropy, min);
    StreamFacts(entropy, min, max, amount);
    var numbers := new nat[amount];
    var used, i := 0, 0;
    assert stream[0..] == stream;
    while i < amount
      invariant 0 <= i <= amount && used <= |entropy|
      invariant i > 0 ==> min <= max
      invariant Accept([], amount, stream) == Accept(numbers[..i], amount, stream[used..])
    {
      var dup := true;
      while dup
        invariant used <= |entropy|
        invariant i > 0 || !dup ==> min <= max
        invariant Accept([], amount, stream) == Accept(numbers[..if dup then i else i + 1], amount, stream[used..])
        decreases |entropy| - used, dup
      {
        if max < min {
          return EmptyRange;
        }
        if used == |entropy| {
          AcceptWhole(numbers[..i], amount, stream[used..]);
          return Starved;
        }
        ghost var kept := numbers[..i];
        ShiftAt(entropy, min, used);
        numbers[i] := entropy[used] + min;
        assert numbers[..i] == kept;
        dup := IsDuplicate(numbers, i);
        AcceptNext(kept, amount, stream, used);
        assert numbers[..i + 1] == kept + [numbers[i]];
        used := used + 1;
      }
      i := i + 1;
    }
    assert numbers[..i] == numbers[..];
    AcceptWhole(numbers[..], amount, stream[used..]);
    return Drawn(numbers[..]);
  }
}
