/** The sample space of the lottery: ordered draws of distinct balls from 1..n,
    and how many of them match a given number of winning balls. */
module Draws {
  import opened Combinatorics

  type Draw = seq<nat>

  predicate IsDraw(s: Draw, n: nat) {
    && (forall i :: 0 <= i < |s| ==> 1 <= s[i] <= n)
    && (forall i, j :: 0 <= i < j < |s| ==> s[i] != s[j])
  }

  /** How many balls of s are numbered at most t. */
  function Matches(s: Draw, t: nat): (c: nat)
    ensures c <= |s|
  {
    if s == [] then 0 else Matches(s[..|s| - 1], t) + if s[|s| - 1] <= t then 1 else 0
  }

  /** All draws of k distinct balls from 1..n, built one ball at a time. */
  ghost function All(n: nat, k: nat): set<Draw> {
    if k == 0 then {[]} else
      set s, x | s in All(n, k - 1) && 1 <= x <= n && x !in s :: Snoc(s, x)
  }

  /** The draws of S with exactly b balls numbered at most t. */
  ghost function Having(S: set<Draw>, t: nat, b: int): set<Draw> {
    set s | s in S && Matches(s, t) == b
  }

  /** The draws of k balls from 1..n of which exactly b are numbered at most t. */
  ghost function Matching(n: nat, k: nat, t: nat, b: int): set<Draw> {
    Having(All(n, k), t, b)
  }

  lemma {:induction false} AllIsEveryDraw(n: nat, k: nat, s: Draw)
    ensures s in All(n, k) <==> |s| == k && IsDraw(s, n)
  {
    if k > 0 && s != [] {
      AllIsEveryDraw(n, k - 1, Init(s));
      assert s == Snoc(Init(s), Last(s));
      assert s in All(n, k) <==> Init(s) in All(n, k - 1) && 1 <= Last(s) <= n && Last(s) !in Init(s);
      DrawLast(s, n);
    }
  }

  lemma DrawLast(s: Draw, n: nat)
    requires s != []
    ensures IsDraw(s, n) <==> IsDraw(Init(s), n) && 1 <= Last(s) <= n && Last(s) !in Init(s)
  {}

  // ---- counting one-ball extensions

  ghost function Range(lo: nat, hi: nat): (r: set<nat>)
    ensures forall x: nat :: x in r <==> lo <= x <= hi
    decreases hi
  {
    if hi < lo then {} else if hi == 0 then {0} else Range(lo, hi - 1) + {hi}
  }

  ghost function Elements(s: Draw): set<nat> {
    set x | x in s
  }

  lemma {:induction false} RangeSize(hi: nat)
    ensures |Range(1, hi)| == hi
  {
    if hi == 0 {
      assert Range(1, hi) == {};
    } else {
      RangeSize(hi - 1);
      assert Range(1, hi) == Range(1, hi - 1) + {hi};
    }
  }

  lemma {:induction false} FreshBelow(s: Draw, n: nat, t: nat)
    requires IsDraw(s, n) && t <= n
    ensures |Range(1, t) - Elements(s)| == t - Matches(s, t)
  {
    if s == [] {
      RangeSize(t);
      assert Range(1, t) - Elements(s) == Range(1, t);
    } else {
      var p, x := s[..|s| - 1], s[|s| - 1];
      FreshBelow(p, n, t);
      ElementsLast(s);
      RemoveOne(Range(1, t), Elements(p), x);
    }
  }

  lemma ElementsLast(s: Draw)
    requires s != []
    ensures Elements(s) == Elements(s[..|s| - 1]) + {s[|s| - 1]}
  {
    assert s == s[..|s| - 1] + [s[|s| - 1]];
  }

  lemma RemoveOne(r: set<nat>, e: set<nat>, x: nat)
    requires x !in e
    ensures |r - (e + {x})| == |r - e| - if x in r then 1 else 0
  {
    if x in r {
      assert r - e == (r - (e + {x})) + {x};
    } else {
      assert r - e == r - (e + {x});
    }
  }

  lemma {:induction false} AllMatchBelowTop(s: Draw, n: nat)
    requires IsDraw(s, n)
    ensures Matches(s, n) == |s|
  {
    if s != [] {
      AllMatchBelowTop(s[..|s| - 1], n);
    }
  }

  lemma FreshAbove(s: Draw, n: nat, t: nat)
    requires IsDraw(s, n) && t <= n
    ensures |Range(t + 1, n) - Elements(s)| == (n - t) - (|s| - Matches(s, t))
  {
    FreshBelow(s, n, n);
    AllMatchBelowTop(s, n);
    FreshBelow(s, n, t);
    var e := Elements(s);
    assert Range(1, n) - e == (Range(1, t) - e) + (Range(t + 1, n) - e);
    assert (Range(1, t) - e) !! (Range(t + 1, n) - e);
  }

  ghost function Snoc(s: Draw, x: nat): (e: Draw)
    ensures e != [] && Init(e) == s && Last(e) == x
  {
    s + [x]
  }

  ghost function Init(e: Draw): Draw requires e != [] { e[..|e| - 1] }

  ghost function Last(e: Draw): nat requires e != [] { e[|e| - 1] }

  /** T is exactly every s + [x] with s in S and x an unused element of A. */
  ghost predicate Extends(T: set<Draw>, S: set<Draw>, A: set<nat>) {
    && (forall s, x {:trigger Snoc(s, x)} :: s in S && x in A && x !in s ==> Snoc(s, x) in T)
    && (forall e {:trigger e in T} :: e in T ==> e != [] && Init(e) in S && Last(e) in A && Last(e) !in Init(e))
  }

  lemma {:induction false} AppendSize(s: Draw, B: set<nat>, T: set<Draw>)
    requires forall x {:trigger Snoc(s, x)} :: x in B ==> Snoc(s, x) in T
    requires forall e {:trigger e in T} :: e in T ==> e != [] && Init(e) == s && Last(e) in B
    ensures |T| == |B|
    decreases B
  {
    if B == {} {
      assert T == {};
    } else {
      var x :| x in B;
      var T' := T - {Snoc(s, x)};
      forall e | e in T' ensures Last(e) in B - {x} {
        assert e == Init(e) + [Last(e)];
      }
      AppendSize(s, B - {x}, T');
    }
  }

  lemma {:induction false} ExtensionSize(T: set<Draw>, S: set<Draw>, A: set<nat>, c: int)
    requires Extends(T, S, A)
    requires forall s :: s in S ==> |A - Elements(s)| == c
    ensures |T| == Times(|S|, c)
    decreases S
  {
    if S == {} {
      assert T == {};
    } else {
      var s :| s in S;
      var rest := PeelPrefix(T, S, A, s);
      ExtensionSize(rest, S - {s}, A, c);
      assert |S| == |S - {s}| + 1;
    }
  }

  lemma PeelPrefix(T: set<Draw>, S: set<Draw>, A: set<nat>, s: Draw) returns (rest: set<Draw>)
    requires Extends(T, S, A) && s in S
    ensures |T| == |rest| + |A - Elements(s)|
    ensures Extends(rest, S - {s}, A)
  {
    var Ts := set e | e in T && Init(e) == s;
    rest := T - Ts;
    assert T == Ts + rest;
    AppendSize(s, A - Elements(s), Ts);
  }

  // ---- the count

  lemma AllBySteps(n: nat, k: nat)
    requires k > 0
    ensures Extends(All(n, k), All(n, k - 1), Range(1, n))
  {
  }

  ghost function EndingIn(S: set<Draw>, A: set<nat>): set<Draw> {
    set e | e in S && e != [] && Last(e) in A
  }

  lemma LowExtends(n: nat, k: nat, t: nat, b: int)
    requires k > 0 && t <= n
    ensures Extends(EndingIn(Matching(n, k, t, b), Range(1, t)), Matching(n, k - 1, t, b - 1), Range(1, t))
  {
    AllBySteps(n, k);
  }

  lemma HighExtends(n: nat, k: nat, t: nat, b: int)
    requires k > 0 && t <= n
    ensures Extends(EndingIn(Matching(n, k, t, b), Range(t + 1, n)), Matching(n, k - 1, t, b), Range(t + 1, n))
  {
    AllBySteps(n, k);
  }

  lemma SplitByLast(n: nat, k: nat, t: nat, b: int)
    requires k > 0 && t <= n
    ensures |Matching(n, k, t, b)| == |EndingIn(Matching(n, k, t, b), Range(1, t))|
                                    + |EndingIn(Matching(n, k, t, b), Range(t + 1, n))|
  {
    var W := Matching(n, k, t, b);
    AllBySteps(n, k);
    assert W == EndingIn(W, Range(1, t)) + EndingIn(W, Range(t + 1, n));
    assert EndingIn(W, Range(1, t)) !! EndingIn(W, Range(t + 1, n));
  }

  lemma LowSize(n: nat, k: nat, t: nat, b: int)
    requires k > 0 && t <= n
    ensures |EndingIn(Matching(n, k, t, b), Range(1, t))| == |Matching(n, k - 1, t, b - 1)| * (t - b + 1)
  {
    LowExtends(n, k, t, b);
    var S, c := Matching(n, k - 1, t, b - 1), t - b + 1;
    assert |EndingIn(Matching(n, k, t, b), Range(1, t))| == Times(|S|, c) by {
      forall s | s in S ensures |Range(1, t) - Elements(s)| == c {
        AllIsEveryDraw(n, k - 1, s);
        FreshBelow(s, n, t);
      }
      ExtensionSize(EndingIn(Matching(n, k, t, b), Range(1, t)), S, Range(1, t), c);
    }
    TimesIsProduct(|S|, c);
  }

  lemma HighSize(n: nat, k: nat, t: nat, b: int)
    requires k > 0 && t <= n
    ensures |EndingIn(Matching(n, k, t, b), Range(t + 1, n))| == |Matching(n, k - 1, t, b)| * (n - t - (k - 1 - b))
  {
    HighExtends(n, k, t, b);
    var S, c := Matching(n, k - 1, t, b), n - t - (k - 1 - b);
    assert |EndingIn(Matching(n, k, t, b), Range(t + 1, n))| == Times(|S|, c) by {
      forall s | s in S ensures |Range(t + 1, n) - Elements(s)| == c {
        AllIsEveryDraw(n, k - 1, s);
        FreshAbove(s, n, t);
      }
      ExtensionSize(EndingIn(Matching(n, k, t, b), Range(t + 1, n)), S, Range(t + 1, n), c);
    }
    TimesIsProduct(|S|, c);
  }

  /** Splitting the draws of k balls by whether the last one is a match. */
  lemma MatchingSplit(n: nat, k: nat, t: nat, b: int, fewer: int, same: int)
    requires k > 0 && t <= n
    requires fewer == |Matching(n, k - 1, t, b - 1)| && same == |Matching(n, k - 1, t, b)|
    ensures |Matching(n, k, t, b)| == fewer * (t - b + 1) + same * (n - t - (k - 1 - b))
  {
    SplitByLast(n, k, t, b);
    LowSize(n, k, t, b);
    HighSize(n, k, t, b);
  }

  lemma PascalProducts(c0: int, c1: int, ft: int, fn: int, u: int, v: int)
    ensures (c0 * ft * (fn * v)) * u + (c1 * (ft * u) * fn) * v == (c0 + c1) * (ft * u) * (fn * v)
  {
    var p, q := ft * u, fn * v;
    assert (c0 * ft * q) * u == c0 * p * q by {
      Associate(c0 * ft, q, u);
      assert q * u == u * q;
      Associate(c0 * ft, u, q);
      Associate(c0, ft, u);
    }
    Associate(c1 * p, fn, v);
    assert (c0 * p + c1 * p) * q == c0 * p * q + c1 * p * q;
    assert (c0 + c1) * p == c0 * p + c1 * p;
  }

  ghost function Expected(n: nat, k: nat, t: nat, b: nat): int
    requires t <= n && b <= k
  {
    Binomial(k, b) * Falling(t, b) * Falling(n - t, k - b)
  }

  lemma ExpectedStep(n: nat, k: nat, t: nat, b: nat)
    requires k > 0 && t <= n && b <= k
    ensures Expected(n, k, t, b) == (if b > 0 then Expected(n, k - 1, t, b - 1) else 0) * (t - b + 1)
                                  + (if b < k then Expected(n, k - 1, t, b) else 0) * (n - t - (k - 1 - b))
  {
    if b == 0 {
      Associate(1, Falling(n - t, k - 1), n - t - (k - 1));
    } else if b == k {
      BinomialPositive(k - 1, k);
      PascalProducts(Binomial(k - 1, k - 1), 0, Falling(t, k - 1), 1, t - k + 1, 1);
    } else {
      PascalProducts(Binomial(k - 1, b - 1), Binomial(k - 1, b), Falling(t, b - 1), Falling(n - t, k - 1 - b),
                     t - b + 1, n - t - (k - 1 - b));
    }
  }

  /** Of the draws of k distinct balls from 1..n, those with exactly b balls numbered at most t
      number C(k, b) * t(t-1).. (b factors) * (n-t)(n-t-1).. (k-b factors). */
  lemma {:induction false} MatchingSize(n: nat, k: nat, t: nat, b: int)
    requires t <= n
    ensures |Matching(n, k, t, b)| == if 0 <= b <= k then Expected(n, k, t, b) else 0
  {
    if b < 0 || b > k {
      forall s | s in All(n, k) ensures Matches(s, t) != b { AllIsEveryDraw(n, k, s); }
      assert Matching(n, k, t, b) == {};
    } else if k == 0 {
      assert Matching(n, 0, t, 0) == {[]};
    } else {
      MatchingSize(n, k - 1, t, b);
      MatchingSize(n, k - 1, t, b - 1);
      MatchingSplit(n, k, t, b, if b > 0 then Expected(n, k - 1, t, b - 1) else 0,
                    if b < k then Expected(n, k - 1, t, b) else 0);
      ExpectedStep(n, k, t, b);
    }
  }

  lemma AllSize(n: nat, k: nat)
    requires k <= n
    ensures |All(n, k)| == Binomial(n, k) * Factorial(k)
  {
    forall s | s in All(n, k) ensures Matches(s, n) == k {
      AllIsEveryDraw(n, k, s);
      AllMatchBelowTop(s, n);
    }
    assert Matching(n, k, n, k) == All(n, k);
    MatchingSize(n, k, n, k);
    FallingIsOrderedChoice(n, k);
    BinomialDiagonal(k);
  }

  lemma {:induction false} BinomialDiagonal(k: nat)
    ensures Binomial(k, k) == 1
  {
    if k > 0 {
      BinomialDiagonal(k - 1);
      BinomialPositive(k - 1, k);
    }
  }

  /** The winning draws: m balls out of n, b of them among the m lowest numbers. */
  lemma WinningSize(m: nat, n: nat, b: nat)
    requires b <= m <= n
    ensures |Matching(n, m, m, b)| == Binomial(m, b) * Binomial(n - m, m - b) * Factorial(m)
  {
    MatchingSize(n, m, m, b);
    FallingIsOrderedChoice(m, b);
    FallingIsOrderedChoice(n - m, m - b);
    BinomialTimesFactorials(m, b);
    WinningAlgebra(Binomial(m, b), Binomial(n - m, m - b), Factorial(b), Factorial(m - b));
  }

  lemma WinningAlgebra(c: int, d: int, fb: int, fr: int)
    ensures c * (c * fb) * (d * fr) == c * d * (c * (fb * fr))
  {
    Associate(c, c * fb, d * fr);
    Associate(c, d, c * (fb * fr));
    assert (c * fb) * (d * fr) == d * (c * (fb * fr)) by {
      Associate(c, fb, fr);
      Associate(c * fb, d, fr);
      Associate(d, c * fb, fr);
    }
  }

  // ---- every draw matches some number of balls, so the classes add up

  ghost function ClassSum(S: set<Draw>, t: nat, top: nat): nat {
    |Having(S, t, top)| + if top == 0 then 0 else ClassSum(S, t, top - 1)
  }

  ghost function HavingUpTo(S: set<Draw>, t: nat, top: nat): set<Draw> {
    set s | s in S && Matches(s, t) <= top
  }

  lemma {:induction false} ClassesPartition(S: set<Draw>, t: nat, top: nat)
    ensures ClassSum(S, t, top) == |HavingUpTo(S, t, top)|
  {
    if top == 0 {
      assert Having(S, t, 0) == HavingUpTo(S, t, 0);
    } else {
      ClassesPartition(S, t, top - 1);
      assert HavingUpTo(S, t, top) == Having(S, t, top) + HavingUpTo(S, t, top - 1);
      assert Having(S, t, top) !! HavingUpTo(S, t, top - 1);
    }
  }
}
