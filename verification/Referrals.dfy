/** Activating referrals: a lootbox count is poured into the earliest unclaimed referrals of its owner
    (cmd/microservice-lootbox-referral-activator/main.go). Amounts are reals. */
module Referrals {
  /** One referral of a given referee and epoch; rows are in order of creation. */
  datatype Row = Row(referrer: string, progress: real, active: bool)

  datatype Key = Key(referee: string, epoch: string)

  datatype Source = Transaction | Referral | Other

  datatype Lootbox = Lootbox(address: string, source: Source, hash: string, awardedTime: nat, volume: int,
    rewardTier: int, count: real, application: string, epoch: string)

  /** The lootbox sent for an activated referral. */
  function Reward(key: Key, time: nat): Lootbox {
    Lootbox(key.referee, Referral, "", time, 0, 1, 5.0, "none", key.epoch)
  }

  function Min(a: real, b: real): real {
    if a < b then a else b
  }

  // ---- pouring

  /** The rows after c is poured into at most `limit` unclaimed ones, earliest first. */
  function Fill(rows: seq<Row>, limit: nat, c: real, a: real): (r: seq<Row>)
    ensures |r| == |rows|
  {
    if rows == [] || limit == 0 || c <= 0.0 then rows
    else if rows[0].active then [rows[0]] + Fill(rows[1..], limit, c, a)
    else
      var given := Min(c, a - rows[0].progress);
      [Given(rows[0], given, a)] + Fill(rows[1..], limit - 1, c - given, a)
  }

  function Given(row: Row, given: real, a: real): Row {
    row.(progress := row.progress + given, active := row.progress + given >= a)
  }

  /** What of c is not used. */
  function Left(rows: seq<Row>, limit: nat, c: real, a: real): real {
    if rows == [] || limit == 0 || c <= 0.0 then c
    else if rows[0].active then Left(rows[1..], limit, c, a)
    else Left(rows[1..], limit - 1, c - Min(c, a - rows[0].progress), a)
  }

  function Progress(rows: seq<Row>): real {
    if rows == [] then 0.0 else rows[0].progress + Progress(rows[1..])
  }

  /** Progress added plus what is left is the count, whatever the rows. */
  lemma {:induction false} PouringConserves(rows: seq<Row>, limit: nat, c: real, a: real)
    ensures Progress(Fill(rows, limit, c, a)) - Progress(rows) + Left(rows, limit, c, a) == c
  {
    if rows == [] || limit == 0 || c <= 0.0 {
    } else if rows[0].active {
      PouringConserves(rows[1..], limit, c, a);
    } else {
      PouringConserves(rows[1..], limit - 1, c - Min(c, a - rows[0].progress), a);
    }
  }

  // ---- what every message keeps

  /** No referral is over-filled, and one is active exactly when it is full. */
  predicate Sound(rows: seq<Row>, a: real) {
    forall r :: r in rows ==> 0.0 <= r.progress <= a && (r.active <==> r.progress == a)
  }

  /** Only the earliest unclaimed referral is partly filled. */
  predicate Poured(rows: seq<Row>) {
    forall i, j :: 0 <= i < j < |rows| && !rows[i].active && !rows[j].active ==> rows[j].progress == 0.0
  }

  predicate Unique(rows: seq<Row>) {
    forall i, j :: 0 <= i < j < |rows| ==> rows[i].referrer != rows[j].referrer
  }

  /** Every unclaimed row is untouched. */
  predicate Untouched(rows: seq<Row>) {
    forall r :: r in rows && !r.active ==> r.progress == 0.0
  }

  lemma PouredTail(rows: seq<Row>)
    requires rows != []
    ensures Poured(rows) <==> Poured(rows[1..]) && (rows[0].active || Untouched(rows[1..]))
  {
    var rest := rows[1..];
    if Poured(rows) {
      forall i, j | 0 <= i < j < |rest| && !rest[i].active && !rest[j].active ensures rest[j].progress == 0.0 {
        assert rows[i + 1] == rest[i] && rows[j + 1] == rest[j];
      }
      if !rows[0].active {
        forall r | r in rest && !r.active ensures r.progress == 0.0 {
          var j :| 0 <= j < |rest| && rest[j] == r;
          assert rows[j + 1] == r;
        }
      }
    }
    if Poured(rest) && (rows[0].active || Untouched(rest)) {
      forall i, j | 0 <= i < j < |rows| && !rows[i].active && !rows[j].active ensures rows[j].progress == 0.0 {
        assert rest[j - 1] == rows[j] && rows[j] in rest;
        assert i > 0 ==> rest[i - 1] == rows[i];
      }
    }
  }

  lemma TailSound(rows: seq<Row>, a: real)
    requires rows != []
    ensures Sound(rows, a) <==>
      Sound(rows[1..], a) && 0.0 <= rows[0].progress <= a && (rows[0].active <==> rows[0].progress == a)
  {
    assert rows == [rows[0]] + rows[1..];
    assert forall r :: r in rows <==> r == rows[0] || r in rows[1..];
  }

  lemma {:induction false} FillKeepsSound(rows: seq<Row>, limit: nat, c: real, a: real)
    requires Sound(rows, a)
    ensures Sound(Fill(rows, limit, c, a), a)
    ensures c >= 0.0 ==> 0.0 <= Left(rows, limit, c, a) <= c
  {
    if rows != [] && limit > 0 && c > 0.0 {
      hide Sound;
      TailSound(rows, a);
      TailSound(Fill(rows, limit, c, a), a);
      if rows[0].active {
        FillKeepsSound(rows[1..], limit, c, a);
      } else {
        FillKeepsSound(rows[1..], limit - 1, c - Min(c, a - rows[0].progress), a);
      }
    }
  }

  lemma {:induction false} FillKeepsPoured(rows: seq<Row>, limit: nat, c: real, a: real)
    requires Sound(rows, a) && Poured(rows)
    ensures Poured(Fill(rows, limit, c, a))
  {
    hide *;
    if rows == [] || limit == 0 || c <= 0.0 {
      FillStops(rows, limit, c, a);
    } else {
      PouredTail(rows);
      TailSound(rows, a);
      var filled, given := Fill(rows, limit, c, a), Min(c, a - rows[0].progress);
      PouredTail(filled);
      FillHead(rows, limit, c, a);
      if rows[0].active {
        FillKeepsPoured(rows[1..], limit, c, a);
      } else {
        FillKeepsPoured(rows[1..], limit - 1, c - given, a);
        FillNothing(rows[1..], limit - 1, c - given, a);
        AllOrFull(rows[0], c, a);
      }
    }
  }

  lemma FillStops(rows: seq<Row>, limit: nat, c: real, a: real)
    ensures rows == [] || limit == 0 || c <= 0.0 ==> Fill(rows, limit, c, a) == rows
  {}

  /** A row takes the whole count or becomes full. */
  lemma AllOrFull(row: Row, c: real, a: real)
    ensures var given := Min(c, a - row.progress); given == c || Given(row, given, a).active
  {}

  lemma MinBounds(a: real, b: real)
    ensures a <= b ==> Min(a, b) == a
    ensures a >= 0.0 && b >= 0.0 ==> Min(a, b) >= 0.0
  {}

  lemma FillHead(rows: seq<Row>, limit: nat, c: real, a: real)
    requires rows != [] && limit > 0 && c > 0.0
    ensures var filled, given := Fill(rows, limit, c, a), Min(c, a - rows[0].progress);
            && filled[0] == (if rows[0].active then rows[0] else Given(rows[0], given, a))
            && filled[1..] ==
              (if rows[0].active then Fill(rows[1..], limit, c, a) else Fill(rows[1..], limit - 1, c - given, a))
            && Left(rows, limit, c, a) ==
              (if rows[0].active then Left(rows[1..], limit, c, a) else Left(rows[1..], limit - 1, c - given, a))
  {}

  lemma FillNothing(rows: seq<Row>, limit: nat, c: real, a: real)
    ensures c <= 0.0 ==> Fill(rows, limit, c, a) == rows && Left(rows, limit, c, a) == c
  {}

  // ---- the number of rows fetched

  function Limit(c: real, a: real): int
    requires a > 0.0
  {
    (c / a).Floor + 2
  }

  /** n thresholds. */
  function Whole(n: nat, a: real): real {
    if n == 0 then 0.0 else Whole(n - 1, a) + a
  }

  lemma {:induction false} WholeIsProduct(n: nat, a: real)
    ensures Whole(n, a) == n as real * a
  {
    if n > 0 {
      WholeIsProduct(n - 1, a);
      Next(n, a);
    }
  }

  lemma Next(n: nat, a: real)
    requires n > 0
    ensures n as real * a == (n - 1) as real * a + a
  {}

  lemma {:induction false} WholeGrows(m: nat, n: nat, a: real)
    requires m <= n && a > 0.0
    ensures Whole(m, a) <= Whole(n, a)
  {
    if m < n {
      WholeGrows(m, n - 1, a);
    }
  }

  lemma LimitCovers(c: real, a: real)
    requires a > 0.0 && c >= 0.0
    ensures Limit(c, a) >= 2 && Whole(Limit(c, a) - 1, a) >= c
  {
    hide Whole;
    var q := c / a;
    assert q * a == c;
    assert q >= 0.0;
    WholeIsProduct(q.Floor + 1, a);
    Scale((q.Floor + 1) as real, q, a);
  }

  lemma Scale(x: real, y: real, a: real)
    requires x >= y && a > 0.0
    ensures x * a >= y * a
  {}

  lemma {:induction false} UntouchedTakesWhole(rows: seq<Row>, limit: nat, c: real, a: real)
    requires Sound(rows, a) && Untouched(rows) && Whole(limit, a) >= c && a > 0.0
    ensures Fill(rows, limit, c, a) == Fill(rows, |rows|, c, a)
    ensures Left(rows, limit, c, a) == Left(rows, |rows|, c, a)
  {
    if rows != [] && c > 0.0 {
      hide Sound, Untouched;
      UntouchedTail(rows, a);
      assert limit > 0;
      if rows[0].active {
        UntouchedTakesWhole(rows[1..], limit, c, a);
        MoreThanRows(rows[1..], |rows|, c, a);
      } else {
        WholeGrows(0, limit - 1, a);
        UntouchedTakesWhole(rows[1..], limit - 1, c - Min(c, a), a);
      }
    }
  }

  lemma UntouchedTail(rows: seq<Row>, a: real)
    requires rows != [] && Sound(rows, a) && Untouched(rows)
    ensures Sound(rows[1..], a) && Untouched(rows[1..])
    ensures !rows[0].active ==> rows[0].progress == 0.0
  {
    assert rows[0] in rows;
  }

  /** A limit beyond the number of rows is as good as that number. */
  lemma {:induction false} MoreThanRows(rows: seq<Row>, limit: nat, c: real, a: real)
    requires limit >= |rows|
    ensures Fill(rows, limit, c, a) == Fill(rows, |rows|, c, a)
    ensures Left(rows, limit, c, a) == Left(rows, |rows|, c, a)
  {
    if rows != [] && c > 0.0 {
      if rows[0].active {
        MoreThanRows(rows[1..], limit, c, a);
        MoreThanRows(rows[1..], |rows|, c, a);
      } else {
        MoreThanRows(rows[1..], limit - 1, c - Min(c, a - rows[0].progress), a);
      }
    }
  }

  /** Any limit that leaves room for one partly filled row loses nothing against fetching every row. */
  lemma {:induction false} LimitNeverBinds(rows: seq<Row>, limit: nat, c: real, a: real)
    requires Sound(rows, a) && Poured(rows) && a > 0.0
    requires limit > 0 && Whole(limit - 1, a) >= c
    ensures Fill(rows, limit, c, a) == Fill(rows, |rows|, c, a)
    ensures Left(rows, limit, c, a) == Left(rows, |rows|, c, a)
  {
    if rows != [] && c > 0.0 {
      hide *;
      PouredTail(rows);
      TailSound(rows, a);
      FillHead(rows, limit, c, a);
      FillHead(rows, |rows|, c, a);
      if rows[0].active {
        LimitNeverBinds(rows[1..], limit, c, a);
        MoreThanRows(rows[1..], |rows|, c, a);
      } else {
        var given := Min(c, a - rows[0].progress);
        MinBounds(c, a - rows[0].progress);
        UntouchedTakesWhole(rows[1..], limit - 1, c - given, a);
      }
      Ends(Fill(rows, limit, c, a), Fill(rows, |rows|, c, a));
    }
  }

  /** What the unclaimed rows can still take. */
  function Capacity(rows: seq<Row>, a: real): real {
    if rows == [] then 0.0 else
      (if rows[0].active then 0.0 else a - rows[0].progress) + Capacity(rows[1..], a)
  }

  lemma {:induction false} LeftOverAll(rows: seq<Row>, c: real, a: real)
    requires Sound(rows, a) && c >= 0.0
    ensures Left(rows, |rows|, c, a) == c - Min(c, Capacity(rows, a)) && Capacity(rows, a) >= 0.0
  {
    if rows != [] {
      hide Sound;
      TailSound(rows, a);
      if c <= 0.0 {
        LeftOverAll(rows[1..], c, a);
      } else if rows[0].active {
        LeftOverAll(rows[1..], c, a);
        MoreThanRows(rows[1..], |rows|, c, a);
      } else {
        LeftOverAll(rows[1..], c - Min(c, a - rows[0].progress), a);
      }
    }
  }

  /** With the rows the service fetches, nothing is left over beyond what all unclaimed referrals can
      take. */
  lemma FetchedRowsSuffice(rows: seq<Row>, c: real, a: real)
    requires Sound(rows, a) && Poured(rows) && a > 0.0 && c >= 0.0
    ensures Limit(c, a) > 0
    ensures Fill(rows, Limit(c, a), c, a) == Fill(rows, |rows|, c, a)
    ensures Left(rows, Limit(c, a), c, a) == c - Min(c, Capacity(rows, a))
  {
    LimitCovers(c, a);
    LimitNeverBinds(rows, Limit(c, a), c, a);
    LeftOverAll(rows, c, a);
  }

  /** Earliest first: a row is given what the count leaves over once all the unclaimed rows before it are
      full, up to what it can take. */
  lemma {:induction false} FillExactly(rows: seq<Row>, c: real, a: real, i: nat)
    requires Sound(rows, a) && i < |rows| && c >= 0.0
    ensures var was, row, over := rows[i], Fill(rows, |rows|, c, a)[i], c - Capacity(rows[..i], a);
            && row.referrer == was.referrer
            && row.progress - was.progress ==
              if was.active || over <= 0.0 then 0.0
              else if over <= a - was.progress then over
              else a - was.progress
  {
    hide Sound, Fill;
    TailSound(rows, a);
    CapacityOfPrefix(rows, a, i);
    if c <= 0.0 {
      FillNothing(rows, |rows|, c, a);
    } else {
      FillHead(rows, |rows|, c, a);
      var filled, given := Fill(rows, |rows|, c, a), Min(c, a - rows[0].progress);
      if rows[0].active {
        MoreThanRows(rows[1..], |rows|, c, a);
      }
      if i > 0 {
        FillExactly(rows[1..], if rows[0].active then c else c - given, a, i - 1);
        assert filled[i] == filled[1..][i - 1];
      }
    }
  }

  lemma CapacityOfPrefix(rows: seq<Row>, a: real, i: nat)
    requires i < |rows| && Sound(rows, a)
    ensures Capacity(rows[..i], a) >= 0.0
    ensures i == 0 ==> Capacity(rows[..i], a) == 0.0
    ensures i > 0 ==> Capacity(rows[..i], a) == (if rows[0].active then 0.0 else a - rows[0].progress) + Capacity(rows[1..][..i - 1], a)
    ensures i > 0 ==> Capacity(rows[1..][..i - 1], a) >= 0.0
  {
    forall r | r in rows[..i] ensures r in rows {}
    LeftOverAll(rows[..i], 0.0, a);
    if i > 0 {
      assert rows[..i][1..] == rows[1..][..i - 1];
      LeftOverAll(rows[1..][..i - 1], 0.0, a);
    }
  }

  function Unclaimed(rows: seq<Row>): nat {
    if rows == [] then 0 else (if rows[0].active then 0 else 1) + Unclaimed(rows[1..])
  }

  lemma {:induction false} UntouchedCapacity(rows: seq<Row>, a: real)
    requires Sound(rows, a) && Untouched(rows)
    ensures Capacity(rows, a) == Whole(Unclaimed(rows), a)
  {
    if rows != [] {
      UntouchedTail(rows, a);
      UntouchedCapacity(rows[1..], a);
    }
  }

  lemma {:induction false} PouredCapacity(rows: seq<Row>, a: real)
    requires Sound(rows, a) && Poured(rows) && a > 0.0
    ensures Unclaimed(rows) > 0 ==> Capacity(rows, a) >= Whole(Unclaimed(rows) - 1, a)
  {
    if rows != [] {
      hide Sound, Poured;
      PouredTail(rows);
      TailSound(rows, a);
      if rows[0].active {
        PouredCapacity(rows[1..], a);
      } else {
        UntouchedCapacity(rows[1..], a);
      }
    }
  }

  /** When as many unclaimed referrals exist as are asked for, the whole count is used. */
  lemma WholeCountIsUsed(rows: seq<Row>, c: real, a: real)
    requires Sound(rows, a) && Poured(rows) && a > 0.0 && c >= 0.0
    requires Unclaimed(rows) >= Limit(c, a)
    ensures Limit(c, a) > 0 && Left(rows, Limit(c, a), c, a) == 0.0
  {
    hide *;
    LimitCovers(c, a);
    PouredCapacity(rows, a);
    WholeGrows(Limit(c, a) - 1, Unclaimed(rows) - 1, a);
    FetchedRowsSuffice(rows, c, a);
    MinBounds(c, Capacity(rows, a));
  }

  // ---- no fewer rows would do

  function Name(n: nat): (s: string)
    ensures |s| == n
  {
    if n == 0 then "" else Name(n - 1) + "x"
  }

  /** n referrals nothing was poured into yet. */
  function Blank(n: nat): (rows: seq<Row>)
    ensures |rows| == n
  {
    if n == 0 then [] else [Row(Name(n), 0.0, false)] + Blank(n - 1)
  }

  lemma {:induction false} BlankIsSound(n: nat, a: real)
    requires a > 0.0
    ensures Sound(Blank(n), a) && Untouched(Blank(n)) && Unique(Blank(n))
    ensures forall r :: r in Blank(n) ==> |r.referrer| <= n
    ensures Unclaimed(Blank(n)) == n
  {
    if n > 0 {
      BlankIsSound(n - 1, a);
      assert Blank(n)[1..] == Blank(n - 1);
      forall i | 0 < i < n ensures Blank(n)[i].referrer != Blank(n)[0].referrer {
        assert Blank(n)[i] == Blank(n - 1)[i - 1] && Blank(n - 1)[i - 1] in Blank(n - 1);
      }
    }
  }

  lemma {:induction false} BlankTakes(n: nat, k: nat, c: real, a: real)
    requires a > 0.0 && k <= n && c >= Whole(k, a)
    ensures Left(Blank(n), k, c, a) == c - Whole(k, a)
  {
    if k > 0 {
      WholeGrows(0, k - 1, a);
      assert Blank(n)[1..] == Blank(n - 1);
      BlankTakes(n - 1, k - 1, c - a, a);
    }
  }

  /** q thresholds and a half, with a quarter of room in the earliest referral and then enough others. */
  function HalfOver(q: nat, a: real): real {
    Whole(q, a) + a / 2.0
  }

  function NearlyFull(q: nat, a: real): seq<Row> {
    [Row(Name(q + 2), a * 0.75, false)] + Blank(q + 1)
  }

  lemma HalfOverFloor(q: nat, a: real)
    requires a > 0.0
    ensures HalfOver(q, a) > 0.0 && Limit(HalfOver(q, a), a) == q + 2
  {
    WholeIsProduct(q, a);
    hide Whole;
    FloorOf(q, a, HalfOver(q, a));
    assert q as real * a >= 0.0;
  }

  lemma FloorOf(q: nat, a: real, c: real)
    requires a > 0.0 && c == q as real * a + a / 2.0
    ensures (c / a).Floor == q
  {
    var x := q as real + 0.5;
    assert c == x * a;
    DivideBack(x, a);
    assert x.Floor == q;
  }

  lemma DivideBack(x: real, a: real)
    requires a > 0.0
    ensures (x * a) / a == x
  {}

  lemma NearlyFullIsSound(q: nat, a: real)
    requires a > 0.0
    ensures var rows := NearlyFull(q, a);
            Sound(rows, a) && Poured(rows) && Unique(rows) && Unclaimed(rows) == q + 2
  {
    hide Blank, Whole, Name;
    var rows := NearlyFull(q, a);
    BlankIsSound(q + 1, a);
    assert rows[1..] == Blank(q + 1);
    TailSound(rows, a);
    PouredTail(rows);
    forall i | 0 < i < |rows| ensures rows[i].referrer != rows[0].referrer {
      assert rows[i] == Blank(q + 1)[i - 1] && rows[i] in Blank(q + 1);
    }
    forall i, j | 0 < i < j < |rows| ensures rows[i].referrer != rows[j].referrer {
      assert rows[i] == Blank(q + 1)[i - 1] && rows[j] == Blank(q + 1)[j - 1];
    }
    assert Poured(rows[1..]);
  }

  /** One row fewer would not do: for every threshold and every floor of count to threshold, some count
      and sound table leave something over with one row fewer, and nothing with the rows fetched. */
  lemma OneFewerFallsShort(q: nat, a: real) returns (rows: seq<Row>, c: real)
    requires a > 0.0
    ensures Sound(rows, a) && Poured(rows) && Unique(rows)
    ensures c > 0.0 && Limit(c, a) == q + 2
    ensures Left(rows, q + 2, c, a) == 0.0
    ensures Left(rows, q + 1, c, a) == a / 4.0
  {
    hide Sound, Poured, Unique, Limit, Unclaimed, Blank;
    rows, c := NearlyFull(q, a), HalfOver(q, a);
    NearlyFullIsSound(q, a);
    HalfOverFloor(q, a);
    WholeCountIsUsed(rows, c, a);
    assert rows[1..] == Blank(q + 1);
    WholeGrows(0, q, a);
    BlankTakes(q + 1, q, c - a / 4.0, a);
  }

  /** Two counts poured in turn do what their sum does. */
  lemma {:induction false} PouringAdds(rows: seq<Row>, c: real, d: real, a: real)
    requires Sound(rows, a) && c >= 0.0 && d >= 0.0
    ensures Fill(Fill(rows, |rows|, c, a), |rows|, d, a) == Fill(rows, |rows|, c + d, a)
  {
    hide Sound, Fill;
    if c <= 0.0 || d <= 0.0 {
      FillNothing(rows, |rows|, c, a);
      FillNothing(Fill(rows, |rows|, c, a), |rows|, d, a);
    } else if rows == [] {
      assert Fill(rows, 0, c, a) == [];
    } else {
      TailSound(rows, a);
      var room, rest, once := a - rows[0].progress, rows[1..], Fill(rows, |rows|, c, a);
      FillHead(rows, |rows|, c, a);
      FillHead(rows, |rows|, c + d, a);
      FillHead(once, |rows|, d, a);
      if rows[0].active {
        MoreThanRows(rest, |rows|, c, a);
        MoreThanRows(rest, |rows|, c + d, a);
        MoreThanRows(once[1..], |rows|, d, a);
        PouringAdds(rest, c, d, a);
      } else if c < room {
        FillNothing(rest, |rest|, 0.0, a);
      } else {
        MoreThanRows(once[1..], |rows|, d, a);
        PouringAdds(rest, c - room, d, a);
      }
      Ends(Fill(once, |rows|, d, a), Fill(rows, |rows|, c + d, a));
    }
  }

  lemma Ends(s: seq<Row>, t: seq<Row>)
    requires s != [] && t != [] && s[0] == t[0] && s[1..] == t[1..]
    ensures s == t
  {
    assert s == [s[0]] + s[1..] && t == [t[0]] + t[1..];
  }

  // ---- the service

  /** GetEarliestUnclaimedReferrals. */
  function Earliest(rows: seq<Row>, limit: nat): seq<Row> {
    if rows == [] || limit == 0 then []
    else if rows[0].active then Earliest(rows[1..], limit)
    else [rows[0]] + Earliest(rows[1..], limit - 1)
  }

  /** UpdateReferral writes progress and active to every row of the referrer. */
  function Update(rows: seq<Row>, row: Row): (r: seq<Row>)
    ensures |r| == |rows|
  {
    if rows == [] then [] else
      [if rows[0].referrer == row.referrer then row else rows[0]] + Update(rows[1..], row)
  }

  function Activated(before: seq<Row>, after: seq<Row>): nat
    requires |before| == |after|
  {
    if before == [] then 0 else
      (if !before[0].active && after[0].active then 1 else 0) + Activated(before[1..], after[1..])
  }

  function Rewards(n: nat, key: Key, time: nat): (sent: seq<Lootbox>)
    ensures |sent| == n
    ensures forall i :: 0 <= i < n ==> sent[i] == Lootbox(key.referee, Referral, "", time, 0, 1, 5.0, "none", key.epoch)
  {
    if n == 0 then [] else Rewards(n - 1, key, time) + [Reward(key, time)]
  }

  lemma {:induction false} UpdateOthers(rows: seq<Row>, row: Row)
    requires forall r :: r in rows ==> r.referrer != row.referrer
    ensures Update(rows, row) == rows
  {
    if rows != [] {
      UpdateOthers(rows[1..], row);
    }
  }

  lemma {:induction false} UpdateAt(done: seq<Row>, was: Row, rest: seq<Row>, row: Row)
    requires row.referrer == was.referrer
    requires forall r :: r in done || r in rest ==> r.referrer != row.referrer
    ensures Update(done + [was] + rest, row) == done + [row] + rest
  {
    var rows := done + [was] + rest;
    if done == [] {
      assert rows[1..] == rest;
      UpdateOthers(rest, row);
    } else {
      assert rows[1..] == done[1..] + [was] + rest;
      UpdateAt(done[1..], was, rest, row);
      assert done == [done[0]] + done[1..];
    }
  }

  /** Active rows are passed over on the way to the next one fetched. */
  lemma {:induction false} SkipActive(rows: seq<Row>, left: nat, c: real, a: real)
    returns (skipped: seq<Row>, was: Row, rest: seq<Row>)
    requires Earliest(rows, left) != [] && c > 0.0
    ensures rows == skipped + [was] + rest && !was.active && left > 0
    ensures Earliest(rows, left) == [was] + Earliest(rest, left - 1)
    ensures var given := Min(c, a - was.progress);
            Fill(rows, left, c, a) == skipped + [Given(was, given, a)] + Fill(rest, left - 1, c - given, a)
  {
    hide *;
    EarliestHead(rows, left);
    FillHead(rows, left, c, a);
    var filled := Fill(rows, left, c, a);
    assert rows == [rows[0]] + rows[1..] && filled == [filled[0]] + filled[1..];
    if rows[0].active {
      skipped, was, rest := SkipActive(rows[1..], left, c, a);
      Regroup([rows[0]], skipped, [was], rest);
      var given := Min(c, a - was.progress);
      Regroup([rows[0]], skipped, [Given(was, given, a)], Fill(rest, left - 1, c - given, a));
      skipped := [rows[0]] + skipped;
    } else {
      skipped, was, rest := [], rows[0], rows[1..];
    }
  }

  lemma Regroup(s: seq<Row>, t: seq<Row>, u: seq<Row>, v: seq<Row>)
    ensures s + (t + u + v) == (s + t) + u + v
  {}

  lemma EarliestHead(rows: seq<Row>, left: nat)
    ensures Earliest(rows, left) != [] ==>
      && rows != [] && left > 0
      && Earliest(rows, left) ==
        (if rows[0].active then Earliest(rows[1..], left) else [rows[0]] + Earliest(rows[1..], left - 1))
  {}

  lemma {:induction false} NoneDue(rest: seq<Row>, left: nat, c: real, a: real)
    requires Earliest(rest, left) == []
    ensures Fill(rest, left, c, a) == rest
  {
    if rest != [] && left > 0 {
      NoneDue(rest[1..], left, c, a);
    }
  }

  lemma {:induction false} ActivatedJoins(b1: seq<Row>, a1: seq<Row>, b2: seq<Row>, a2: seq<Row>)
    requires |b1| == |a1| && |b2| == |a2|
    ensures Activated(b1 + b2, a1 + a2) == Activated(b1, a1) + Activated(b2, a2)
  {
    if b1 == [] {
      assert b1 + b2 == b2 && a1 + a2 == a2;
    } else {
      ActivatedJoins(b1[1..], a1[1..], b2, a2);
      assert (b1 + b2)[1..] == b1[1..] + b2 && (a1 + a2)[1..] == a1[1..] + a2;
    }
  }

  /** A row once active stays so, and the rows activated are the unclaimed ones that no longer are. */
  lemma {:induction false} ActivatedAreClaimed(rows: seq<Row>, limit: nat, c: real, a: real)
    ensures var filled := Fill(rows, limit, c, a);
            && (forall i :: 0 <= i < |rows| && rows[i].active ==> filled[i] == rows[i])
            && Activated(rows, filled) == Unclaimed(rows) - Unclaimed(filled)
  {
    if rows == [] || limit == 0 || c <= 0.0 {
      NoneActivated(rows);
    } else if rows[0].active {
      ActivatedAreClaimed(rows[1..], limit, c, a);
    } else {
      ActivatedAreClaimed(rows[1..], limit - 1, c - Min(c, a - rows[0].progress), a);
    }
  }

  lemma {:induction false} NoneActivated(rows: seq<Row>)
    ensures Activated(rows, rows) == 0
  {
    if rows != [] {
      NoneActivated(rows[1..]);
    }
  }

  /** How far a loop over the fetched rows has come: `done` is behind it, `rest` as it was. */
  datatype Progressed = Progressed(done: seq<Row>, rest: seq<Row>, left: nat, c: real)

  ghost predicate Midway(s: Progressed, start: seq<Row>, limit: nat, c: real, a: real, due: seq<Row>, sent: nat) {
    && |s.done| + |s.rest| == |start| && start == start[..|s.done|] + s.rest
    && Unique(s.done + s.rest)
    && Fill(start, limit, c, a) == s.done + Fill(s.rest, s.left, s.c, a)
    && due == Earliest(s.rest, s.left)
    && sent == Activated(start[..|s.done|], s.done)
  }

  lemma GivenKeepsReferrer(row: Row, given: real, a: real)
    ensures Given(row, given, a).referrer == row.referrer
  {}

  /** One turn of the loop. */
  lemma Turn(s: Progressed, start: seq<Row>, limit: nat, c: real, a: real, due: seq<Row>, sent: nat)
    returns (t: Progressed)
    requires Midway(s, start, limit, c, a, due, sent) && due != [] && s.c > 0.0
    ensures var given := Min(s.c, a - due[0].progress);
            var row := Given(due[0], given, a);
            && !due[0].active
            && Update(s.done + s.rest, row) == t.done + t.rest
            && t.c == s.c - given
            && Midway(t, start, limit, c, a, due[1..], sent + if row.active then 1 else 0)
  {
    hide Fill, Earliest, Update, Activated, Unique, Given, Min;
    var skipped, was, rest := SkipActive(s.rest, s.left, s.c, a);
    var given := Min(s.c, a - was.progress);
    var row := Given(was, given, a);
    GivenKeepsReferrer(was, given, a);
    t := Progressed(s.done + skipped + [row], rest, s.left - 1, s.c - given);
    assert s.done + s.rest == (s.done + skipped) + [was] + rest;
    OthersDiffer(s.done + skipped, was, rest, row);
    UpdateAt(s.done + skipped, was, rest, row);
    TurnActivates(start[..|s.done|], s.done, skipped, was, row);
    assert start[..|t.done|] == start[..|s.done|] + (skipped + [was]);
    assert t.done == s.done + (skipped + [row]);
    assert t.done + Fill(rest, t.left, t.c, a)
        == s.done + (skipped + [row] + Fill(rest, t.left, t.c, a));
  }

  lemma TurnActivates(before: seq<Row>, done: seq<Row>, skipped: seq<Row>, was: Row, row: Row)
    requires |before| == |done| && !was.active
    ensures Activated(before + (skipped + [was]), done + (skipped + [row]))
         == Activated(before, done) + if row.active then 1 else 0
  {
    ActivatedJoins(before, done, skipped + [was], skipped + [row]);
    ActivatedJoins(skipped, skipped, [was], [row]);
    NoneActivated(skipped);
    assert Activated([was][1..], [row][1..]) == 0;
  }

  lemma Start(start: seq<Row>, limit: nat, c: real, a: real)
    requires Unique(start)
    ensures Midway(Progressed([], start, limit, c), start, limit, c, a, Earliest(start, limit), 0)
  {
    assert [] + start == start;
  }

  lemma Finish(s: Progressed, start: seq<Row>, limit: nat, c: real, a: real, due: seq<Row>, sent: nat)
    requires Midway(s, start, limit, c, a, due, sent) && (s.c <= 0.0 || due == [])
    ensures Fill(start, limit, c, a) == s.done + s.rest && Unique(s.done + s.rest)
    ensures |s.done + s.rest| == |start| && sent == Activated(start, s.done + s.rest)
  {
    hide Fill, Earliest, Update, Activated, Unique;
    FillNothing(s.rest, s.left, s.c, a);
    if due == [] {
      NoneDue(s.rest, s.left, s.c, a);
    }
    ActivatedJoins(start[..|s.done|], s.done, s.rest, s.rest);
    NoneActivated(s.rest);
  }

  lemma OthersDiffer(done: seq<Row>, was: Row, rest: seq<Row>, row: Row)
    requires Unique(done + [was] + rest) && row.referrer == was.referrer
    ensures forall r :: r in done || r in rest ==> r.referrer != row.referrer
    ensures Unique(done + [row] + rest)
  {
    var rows := done + [was] + rest;
    assert rows[|done|] == was;
    forall r | r in done ensures r.referrer != row.referrer {
      var i :| 0 <= i < |done| && done[i] == r;
      assert rows[i] == r;
    }
    forall r | r in rest ensures r.referrer != row.referrer {
      var i :| 0 <= i < |rest| && rest[i] == r;
      assert rows[|done| + 1 + i] == r;
    }
    var after := done + [row] + rest;
    forall i | 0 <= i < |after| ensures after[i].referrer == rows[i].referrer {}
  }

  lemma NewReferral(rows: seq<Row>, referrer: string, a: real)
    requires Sound(rows, a) && Poured(rows) && Unique(rows) && a > 0.0
    requires forall r :: r in rows ==> r.referrer != referrer
    ensures Sound(rows + [Row(referrer, 0.0, false)], a)
    ensures Poured(rows + [Row(referrer, 0.0, false)])
    ensures Unique(rows + [Row(referrer, 0.0, false)])
  {}

  class Activator {
    const amount: real
    var table: map<Key, seq<Row>>
    var queue: seq<Lootbox>

    ghost predicate Valid()
      reads this
    {
      && amount > 0.0
      && forall key :: key in table ==> Sound(table[key], amount) && Poured(table[key]) && Unique(table[key])
    }

    function Rows(key: Key): seq<Row>
      reads this
    {
      if key in table then table[key] else []
    }

    /** The primary key is referrer and referee, in whatever epoch. */
    predicate Referred(referrer: string, referee: string)
      reads this
    {
      exists key :: key in table && key.referee == referee && exists r :: r in table[key] && r.referrer == referrer
    }

    /** Inserts a row with its defaults, unless the pair has one. */
    method AddReferral(referrer: string, key: Key) returns (added: bool)
      requires Valid()
      modifies this
      ensures Valid() && queue == old(queue)
      ensures added <==> !old(Referred(referrer, key.referee))
      ensures table == if added then old(table)[key := old(Rows(key)) + [Row(referrer, 0.0, false)]] else old(table)
      ensures Referred(referrer, key.referee)
    {
      if Referred(referrer, key.referee) {
        return false;
      }
      ghost var rows := Rows(key);
      forall r | r in rows ensures r.referrer != referrer {
        assert key in table && r in table[key];
      }
      NewReferral(rows, referrer, amount);
      hide Sound, Poured, Unique;
      table := table[key := Rows(key) + [Row(referrer, 0.0, false)]];
      assert Row(referrer, 0.0, false) in table[key];
      added := true;
    }

    /** Returns false where the service dies. */
    method Receive(box: Lootbox, currTime: nat) returns (alive: bool)
      requires Valid()
      modifies this
      ensures Valid()
      ensures alive <==>
        (box.source == Transaction ==> box.address != "" && box.hash != "" && Limit(box.count, amount) >= 0)
      ensures var key := Key(box.address, box.epoch);
              var before := old(Rows(key));
              if !alive || box.source != Transaction then table == old(table) && queue == old(queue)
              else
                && table == (if key in old(table)
                    then old(table)[key := Fill(before, Limit(box.count, amount), box.count, amount)]
                    else old(table))
                && old(queue) <= queue
                && |queue| - |old(queue)| == Unclaimed(before) - Unclaimed(Rows(key))
                && forall i :: |old(queue)| <= i < |queue| ==>
                     queue[i] == Lootbox(box.address, Referral, "", currTime, 0, 1, 5.0, "none", box.epoch)
    {
      hide Unclaimed, Fill, Limit, Earliest, Activated, Rewards, Sound, Poured, Unique;
      NoRows(amount);
      if box.source != Transaction {
        return true;
      }
      if box.address == "" || box.hash == "" {
        return false;
      }
      var maxUnclaimed := Limit(box.count, amount);
      if maxUnclaimed < 0 {
        return false;
      }
      var key := Key(box.address, box.epoch);
      FillKeepsSound(Rows(key), maxUnclaimed, box.count, amount);
      FillKeepsPoured(Rows(key), maxUnclaimed, box.count, amount);
      ActivatedAreClaimed(Rows(key), maxUnclaimed, box.count, amount);
      FillOfNone(maxUnclaimed, box.count, amount);
      Pour(key, Earliest(Rows(key), maxUnclaimed), box.count, currTime, maxUnclaimed);
      alive := true;
    }

    method Pour(key: Key, unclaimed: seq<Row>, lootboxCount: real, currTime: nat, ghost limit: nat)
      requires Unique(Rows(key)) && unclaimed == Earliest(Rows(key), limit)
      modifies this
      ensures Unique(Rows(key))
      ensures table == if key in old(table)
        then old(table)[key := Fill(old(Rows(key)), limit, lootboxCount, amount)] else old(table)
      ensures |Rows(key)| == |old(Rows(key))|
      ensures queue == old(queue) + Rewards(Activated(old(Rows(key)), Rows(key)), key, currTime)
    {
      hide Fill, Limit, Earliest, Update, Activated, Rewards, Unique, Midway, Given;
      var count := lootboxCount;
      ghost var start, sent, s := Rows(key), 0, Progressed([], Rows(key), limit, count);
      Start(start, limit, count, amount);
      NoRewards(key, currTime);
      NoneEarliest(start, limit);
      for i := 0 to |unclaimed|
        invariant s.c == count && Midway(s, start, limit, lootboxCount, amount, unclaimed[i..], sent)
        invariant i == 0 ==> s.done + s.rest == start
        invariant table == if i > 0 then old(table)[key := s.done + s.rest] else old(table)
        invariant queue == old(queue) + Rewards(sent, key, currTime)
      {
        if count <= 0.0 {
          Finish(s, start, limit, lootboxCount, amount, unclaimed[i..], sent);
          return;
        }
        var referral := unclaimed[i];
        s := Turn(s, start, limit, lootboxCount, amount, unclaimed[i..], sent);
        var contribution := Min(count, amount - referral.progress);
        count := count - contribution;
        referral := Given(referral, contribution, amount);
        if referral.active {
          queue := queue + [Reward(key, currTime)];
          RewardStep(sent, key, currTime);
          sent := sent + 1;
        }
        table := table[key := Update(Rows(key), referral)];
      }
      Finish(s, start, limit, lootboxCount, amount, [], sent);
    }
  }

  lemma FillOfNone(limit: nat, c: real, a: real)
    ensures Fill([], limit, c, a) == []
  {}

  lemma NoRows(a: real)
    ensures Sound([], a) && Poured([]) && Unique([])
  {}

  lemma NoneEarliest(rows: seq<Row>, limit: nat)
    ensures rows == [] ==> Earliest(rows, limit) == []
  {}

  lemma NoRewards(key: Key, time: nat)
    ensures Rewards(0, key, time) == []
  {}

  lemma RewardStep(n: nat, key: Key, time: nat)
    ensures Rewards(n + 1, key, time) == Rewards(n, key, time) + [Reward(key, time)]
  {}
}
