/** Drawing by rejection favours no draw: over all candidate streams of a given length, every
    draw of m distinct balls is produced by equally many. */
module UniformDraws {
  import opened Combinatorics
  import opened Draws
  import opened RandomIntegers

  type Stream = seq<nat>

  ghost function Cons(x: nat, e: Stream): (s: Stream)
    ensures s != [] && s[0] == x && s[1..] == e
  {
    [x] + e
  }

  /** All streams of `length` candidates, each in 1..n. */
  ghost function Streams(n: nat, length: nat): set<Stream> {
    if length == 0 then {[]} else set x, e | x in Range(1, n) && e in Streams(n, length - 1) :: Cons(x, e)
  }

  lemma {:induction false} StreamsAreAll(n: nat, length: nat, e: Stream)
    ensures e in Streams(n, length) <==> |e| == length && forall i :: 0 <= i < length ==> 1 <= e[i] <= n
  {
    if length > 0 && e != [] {
      StreamsAreAll(n, length - 1, e[1..]);
      assert e == Cons(e[0], e[1..]);
      assert e in Streams(n, length) <==> e[0] in Range(1, n) && e[1..] in Streams(n, length - 1);
    }
  }

  /** The streams that lead from the balls already drawn to exactly the draw s. */
  ghost function Leading(n: nat, drawn: Draw, s: Draw, length: nat): set<Stream>
    requires |drawn| <= |s|
  {
    set e | e in Streams(n, length) && Accept(drawn, |s|, e) == Drawn(s)
  }

  /** How many streams lead from i drawn balls to any one completion with m balls. */
  ghost function Ways(n: nat, i: nat, m: nat, length: nat): nat
    requires i <= m
    decreases length
  {
    if i == m then |Streams(n, length)|
    else if length == 0 then 0
    else i * Ways(n, i, m, length - 1) + Ways(n, i + 1, m, length - 1)
  }

  ghost predicate Prepends(T: set<Stream>, B: set<nat>, S: set<Stream>) {
    && (forall x, e {:trigger Cons(x, e)} :: x in B && e in S ==> Cons(x, e) in T)
    && (forall t {:trigger t in T} :: t in T ==> t != [] && t[0] in B && t[1..] in S)
  }

  lemma {:induction false} ConsSize(T: set<Stream>, x: nat, S: set<Stream>)
    requires Prepends(T, {x}, S)
    ensures |T| == |S|
    decreases S
  {
    if S == {} {
      assert T == {};
    } else {
      var e :| e in S;
      var T' := T - {Cons(x, e)};
      forall t | t in T' ensures t[1..] in S - {e} {
        assert t == Cons(t[0], t[1..]);
      }
      ConsSize(T', x, S - {e});
    }
  }

  lemma {:induction false} PrependSize(T: set<Stream>, B: set<nat>, S: set<Stream>)
    requires Prepends(T, B, S)
    ensures |T| == Times(|B|, |S|)
    decreases B
  {
    if B == {} {
      assert T == {};
    } else {
      var x :| x in B;
      var Tx := set t | t in T && t[0] == x;
      ConsSize(Tx, x, S);
      PrependSize(T - Tx, B - {x}, S);
      assert T == Tx + (T - Tx);
      assert |B| == |B - {x}| + 1;
    }
  }

  ghost function HeadIn(T: set<Stream>, B: set<nat>): set<Stream> {
    set t | t in T && t != [] && t[0] in B
  }

  lemma {:induction false} ElementsSize(s: Draw, n: nat)
    requires IsDraw(s, n)
    ensures |Elements(s)| == |s|
  {
    if s != [] {
      ElementsSize(Init(s), n);
      ElementsLast(s);
      DrawLast(s, n);
    }
  }

  lemma StepSplit(n: nat, drawn: Draw, s: Draw, length: nat)
    requires IsDraw(s, n) && drawn <= s && |drawn| < |s| && length > 0
    ensures var T, next := Leading(n, drawn, s, length), s[|drawn|];
            && T == HeadIn(T, Elements(drawn)) + HeadIn(T, {next})
            && HeadIn(T, Elements(drawn)) !! HeadIn(T, {next})
            && Prepends(HeadIn(T, Elements(drawn)), Elements(drawn), Leading(n, drawn, s, length - 1))
            && Prepends(HeadIn(T, {next}), {next}, Leading(n, drawn + [next], s, length - 1))
  {
    var T, next := Leading(n, drawn, s, length), s[|drawn|];
    assert next !in drawn by {
      assert forall i :: 0 <= i < |drawn| ==> drawn[i] == s[i];
    }
    forall e | e in T ensures e != [] && (e[0] in drawn || e[0] == next) {
      if e[0] !in drawn {
        assert drawn + [e[0]] <= s;
        assert (drawn + [e[0]])[|drawn|] == s[|drawn|];
      }
    }
    forall x | x in Elements(drawn) ensures x in Range(1, n) {
      var i :| 0 <= i < |drawn| && drawn[i] == x;
      assert s[i] == x;
    }
  }

  /** The number of streams depends on how many balls are drawn, never on which draw results. */
  lemma {:induction false} LeadingSize(n: nat, drawn: Draw, s: Draw, length: nat)
    requires IsDraw(s, n) && drawn <= s
    ensures |Leading(n, drawn, s, length)| == Ways(n, |drawn|, |s|, length)
    decreases length
  {
    if |drawn| == |s| {
      assert drawn == s;
      assert Leading(n, drawn, s, length) == Streams(n, length);
    } else if length == 0 {
      assert Leading(n, drawn, s, length) == {};
    } else {
      var T, next := Leading(n, drawn, s, length), s[|drawn|];
      StepSplit(n, drawn, s, length);
      PrependSize(HeadIn(T, Elements(drawn)), Elements(drawn), Leading(n, drawn, s, length - 1));
      ConsSize(HeadIn(T, {next}), next, Leading(n, drawn + [next], s, length - 1));
      LeadingSize(n, drawn, s, length - 1);
      assert drawn + [next] <= s;
      LeadingSize(n, drawn + [next], s, length - 1);
      ElementsSize(drawn, n);
      TimesIsProduct(|drawn|, Ways(n, |drawn|, |s|, length - 1));
    }
  }

  /** No two draws of the same size differ in the number of streams that produce them. */
  lemma EveryDrawEquallyLikely(n: nat, s: Draw, s': Draw, length: nat)
    requires IsDraw(s, n) && IsDraw(s', n) && |s| == |s'|
    ensures |Leading(n, [], s, length)| == |Leading(n, [], s', length)|
  {
    LeadingSize(n, [], s, length);
    LeadingSize(n, [], s', length);
  }

  /** The streams after which the m balls drawn are one of S. */
  ghost function LeadingInto(n: nat, m: nat, S: set<Draw>, length: nat): set<Stream> {
    set e | e in Streams(n, length) && Accept([], m, e).Drawn? && Accept([], m, e).numbers in S
  }

  lemma SplitOffOneDraw(n: nat, m: nat, S: set<Draw>, s: Draw, length: nat)
    requires s in S && |s| == m && IsDraw(s, n)
    ensures |LeadingInto(n, m, S, length)| == |LeadingInto(n, m, S - {s}, length)| + Ways(n, 0, m, length)
  {
    var rest, one := LeadingInto(n, m, S - {s}, length), Leading(n, [], s, length);
    assert LeadingInto(n, m, S, length) == rest + one;
    assert rest !! one;
    LeadingSize(n, [], s, length);
  }

  lemma {:induction false} LeadingIntoSize(n: nat, m: nat, S: set<Draw>, length: nat)
    requires forall s :: s in S ==> |s| == m && IsDraw(s, n)
    ensures |LeadingInto(n, m, S, length)| == Times(|S|, Ways(n, 0, m, length))
    decreases S
  {
    if S == {} {
      assert LeadingInto(n, m, S, length) == {};
    } else {
      var s :| s in S;
      var S' := S - {s};
      LeadingIntoSize(n, m, S', length);
      SplitOffOneDraw(n, m, S, s, length);
      assert |S| == |S'| + 1;
    }
  }

  /** Some stream of every length from m up finishes, whenever there are m balls to draw. */
  lemma {:induction false} WaysPositive(n: nat, i: nat, m: nat, length: nat)
    requires i <= m && m - i <= length && n > 0
    ensures Ways(n, i, m, length) > 0
    decreases length
  {
    if i == m {
      var e := seq(length, _ => 1);
      StreamsAreAll(n, length, e);
      assert Streams(n, length) != {};
    } else {
      WaysPositive(n, i + 1, m, length - 1);
    }
  }

  /** With i < m <= n balls drawn, exactly n - i candidates are still acceptable. */
  lemma RoundHasAcceptableDraws(n: nat, drawn: Draw)
    requires IsDraw(drawn, n) && |drawn| < n
    ensures |Range(1, n) - Elements(drawn)| == n - |drawn| > 0
  {
    FreshBelow(drawn, n, n);
    AllMatchBelowTop(drawn, n);
  }
}
