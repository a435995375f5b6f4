/** Moving averages over a Redis list, newest first
    (common/calculation/moving-average/moving-average.go,
    cmd/microservice-ethereum-worker-server/main.go). */
module MovingAverage {
  import opened Combinatorics

  const DEFAULT_BUFFER_SIZE := 500

  /** A stored string, as a number when it reads as one. */
  datatype Item = Number(n: int) | Junk

  datatype Result<T> = Ok(value: T) | Err

  function Newest(list: seq<Item>, n: nat): (newest: seq<Item>)
    ensures newest <= list && |newest| == if |list| <= n then |list| else n
  {
    if |list| <= n then list else list[..n]
  }

  predicate Readable(list: seq<Item>) {
    forall x :: x in list ==> x.Number?
  }

  function Sum(list: seq<Item>): int {
    if list == [] then 0 else
      Sum(list[..|list| - 1]) + if list[|list| - 1].Number? then list[|list| - 1].n else 0
  }

  /** The sum is over the entries, and of one it is the number it holds. */
  lemma {:induction false} SumAdds(some: seq<Item>, more: seq<Item>)
    ensures Sum(some + more) == Sum(some) + Sum(more)
  {
    if more == [] {
      assert some + more == some;
    } else {
      SumAdds(some, more[..|more| - 1]);
      assert (some + more)[..|some + more| - 1] == some + more[..|more| - 1];
    }
  }

  lemma SumOfOne(n: int)
    ensures Sum([Number(n)]) == n && Sum([Junk]) == 0
  {
    assert Sum([]) == 0;
  }

  /** Go's int division. */
  function Quotient(x: int, y: nat): int
    requires y > 0
  {
    if x >= 0 then x / y else -(-x / y)
  }

  /** It is exact but for a remainder, which is dropped towards zero. */
  lemma QuotientBrackets(x: int, y: nat)
    requires y > 0
    ensures x >= 0 ==> Quotient(x, y) * y <= x < (Quotient(x, y) + 1) * y
    ensures x <= 0 ==> (Quotient(x, y) - 1) * y < x <= Quotient(x, y) * y
  {
    if x >= 0 {
      DivisionBrackets(x, y);
    }
    if x <= 0 {
      DivisionBrackets(-x, y);
      Negate(-x / y, y);
      Negate(-x / y + 1, y);
    }
  }

  lemma Negate(q: int, y: int)
    ensures -q * y == -(q * y)
  {}

  lemma DivisionBrackets(x: nat, y: nat)
    requires y > 0
    ensures (x / y) * y <= x < (x / y + 1) * y
  {}

  function Min(a: int, b: int): int {
    if a < b then a else b
  }

  function Max(a: int, b: int): int {
    if a < b then b else a
  }

  // ---- the lists

  class Redis {
    var lists: map<string, seq<Item>>

    constructor ()
      ensures forall key :: List(key) == []
    {
      lists := map[];
    }

    function List(key: string): seq<Item>
      reads this
    {
      if key in lists then lists[key] else []
    }

    method LPush(key: string, x: Item)
      modifies this
      ensures List(key) == [x] + old(List(key))
      ensures forall k :: k != key ==> List(k) == old(List(k))
    {
      lists := lists[key := [x] + List(key)];
    }

    method RPopCount(key: string, count: nat)
      modifies this
      ensures List(key) == Newest(old(List(key)), Max(0, |old(List(key))| - count))
      ensures forall k :: k != key ==> List(k) == old(List(k))
    {
      var list := List(key);
      lists := lists[key := list[..Max(0, |list| - count)]];
    }

    /** The end is inclusive. */
    function LRange(key: string, end: nat): seq<Item>
      reads this
    {
      Newest(List(key), end + 1)
    }
  }

  method Total(values: seq<Item>) returns (r: Result<int>)
    ensures r == if Readable(values) then Ok(Sum(values)) else Err
  {
    var average := 0;
    for i := 0 to |values|
      invariant Readable(values[..i]) && average == Sum(values[..i])
    {
      assert values[..i + 1][..i] == values[..i];
      if values[i].Junk? {
        assert values[i] in values;
        return Err;
      }
      average := average + values[i].n;
    }
    assert values[..|values|] == values;
    return Ok(average);
  }

  /** What is kept of a list, and what is scanned of it. */
  function Kept(list: seq<Item>, limit: nat, pop: bool): seq<Item> {
    if pop then Newest(list, limit) else list
  }

  /** Up to limit + 1 entries are summed, and the sum is divided by the length before popping. */
  method CalculateMovingAverageAndSumMaybePop(redis: Redis, key: string, limit: nat, shouldPopIfExcess: bool)
    returns (r: Result<(int, int)>)
    modifies redis
    ensures redis.List(key) == Kept(old(redis.List(key)), limit, shouldPopIfExcess)
    ensures forall k :: k != key ==> redis.List(k) == old(redis.List(k))
    ensures var list := old(redis.List(key));
            var scanned := Newest(redis.List(key), limit + 1);
            r == if list == [] then Ok((0, 0))
                 else if Readable(scanned) then Ok((Quotient(Sum(scanned), |list|), Sum(scanned)))
                 else Err
    ensures r.Ok? ==>
      var average, sum, n := r.value.0, r.value.1, |old(redis.List(key))|;
      && (sum > 0 ==> average * n <= sum < (average + 1) * n)
      && (sum < 0 ==> (average - 1) * n < sum <= average * n)
      && (sum == 0 ==> average == 0)
  {
    var listLength := |redis.List(key)|;
    var shouldPop := listLength > limit && shouldPopIfExcess;
    if shouldPop {
      redis.RPopCount(key, listLength - limit);
    }
    var values := redis.LRange(key, limit);
    if listLength == 0 {
      return Ok((0, 0));
    }
    var sum := Total(values);
    if sum.Err? {
      return Err;
    }
    QuotientBrackets(sum.value, listLength);
    ZeroOver(listLength);
    return Ok((Quotient(sum.value, listLength), sum.value));
  }

  lemma ZeroOver(y: nat)
    requires y > 0
    ensures Quotient(0, y) == 0
  {}

  /** The 501 newest entries are averaged and 500 of them kept. */
  method CalculateMovingAverage(redis: Redis, key: string) returns (r: Result<int>)
    modifies redis
    ensures var list := old(redis.List(key));
            && redis.List(key) == (if |list| > DEFAULT_BUFFER_SIZE then list[..|list| - 1] else list)
            && var scanned := Newest(list, DEFAULT_BUFFER_SIZE + 1);
            r == if list == [] then Ok(0)
                 else if Readable(scanned) then Ok(Quotient(Sum(scanned), |scanned|)) else Err
    ensures r.Ok? && old(redis.List(key)) != [] ==>
      var scanned := Newest(old(redis.List(key)), DEFAULT_BUFFER_SIZE + 1);
      && (Sum(scanned) >= 0 ==> r.value * |scanned| <= Sum(scanned) < (r.value + 1) * |scanned|)
      && (Sum(scanned) <= 0 ==> (r.value - 1) * |scanned| < Sum(scanned) <= r.value * |scanned|)
    ensures forall k :: k != key ==> redis.List(k) == old(redis.List(k))
  {
    var values := redis.LRange(key, DEFAULT_BUFFER_SIZE);
    if |values| > DEFAULT_BUFFER_SIZE {
      redis.RPopCount(key, 1);
    }
    if |values| == 0 {
      return Ok(0);
    }
    var sum := Total(values);
    if sum.Err? {
      return Err;
    }
    QuotientBrackets(sum.value, |values|);
    return Ok(Quotient(sum.value, |values|));
  }

  /** A key written only through StoreAndCalculate holds the 500 newest values ever stored there, and
      the result averages the 501 newest. `stored` is everything stored before, newest first. */
  method StoreAndCalculate(redis: Redis, key: string, x: int, ghost stored: seq<Item>) returns (r: Result<int>)
    requires redis.List(key) == Newest(stored, DEFAULT_BUFFER_SIZE)
    requires Readable(stored)
    modifies redis
    ensures redis.List(key) == Newest([Number(x)] + stored, DEFAULT_BUFFER_SIZE)
    ensures r == Ok(Quotient(Sum(Newest([Number(x)] + stored, DEFAULT_BUFFER_SIZE + 1)),
      Min(|stored| + 1, DEFAULT_BUFFER_SIZE + 1)))
    ensures forall k :: k != key ==> redis.List(k) == old(redis.List(k))
  {
    hide Sum, Quotient;
    redis.LPush(key, Number(x));
    Pushed(stored, Number(x), DEFAULT_BUFFER_SIZE);
    Again([Number(x)] + stored, DEFAULT_BUFFER_SIZE + 1, DEFAULT_BUFFER_SIZE + 1);
    r := CalculateMovingAverage(redis, key);
  }

  lemma Pushed(stored: seq<Item>, x: Item, n: nat)
    ensures [x] + Newest(stored, n) == Newest([x] + stored, n + 1)
    ensures Readable(stored) && x.Number? ==> Readable([x] + stored)
  {}

  lemma Again(stored: seq<Item>, m: nat, n: nat)
    ensures Newest(Newest(stored, m), n) == Newest(stored, Min(m, n))
    ensures Readable(stored) ==> Readable(Newest(stored, m))
    ensures |Newest(stored, m)| == Min(|stored|, m)
  {}

  // ---- the worker's list of transfers per block

  /** The entries the average is taken over. */
  function Averaged(atx: nat, epoch: nat): nat {
    if atx > epoch then atx else atx + 1
  }

  /** The entries summed for the epoch. */
  function Summed(atx: nat, epoch: nat): nat {
    if atx > epoch then epoch + 1 else epoch
  }

  class Worker {
    const redis: Redis
    const key: string
    const atxBufferSize: nat
    const epochBlocks: nat
    ghost var counts: seq<Item>     // of every block so far, newest first

    ghost const size := Max(atxBufferSize, epochBlocks)

    ghost predicate Valid()
      reads this, redis
    {
      redis.List(key) == Newest(counts, size) && Readable(counts)
    }

    constructor (redis: Redis, key: string, atxBufferSize: nat, epochBlocks: nat)
      requires redis.List(key) == []
      ensures Valid() && counts == []
      ensures this.redis == redis && this.key == key
      ensures this.atxBufferSize == atxBufferSize && this.epochBlocks == epochBlocks
    {
      this.redis, this.key := redis, key;
      this.atxBufferSize, this.epochBlocks, counts := atxBufferSize, epochBlocks, [];
    }

    /** Takes the number of transfers in each transaction of a block. */
    method Block(transactions: seq<nat>) returns (average: int, epochSum: int)
      requires Valid()
      modifies this, redis
      ensures Valid()
      ensures counts == [Number(Transfers(transactions))] + old(counts)
      ensures average ==
        Quotient(Sum(Newest(counts, Averaged(atxBufferSize, epochBlocks))), Min(|counts|, size + 1))
      ensures var sum := Sum(Newest(counts, Averaged(atxBufferSize, epochBlocks)));
              sum >= 0 ==> average * Min(|counts|, size + 1) <= sum < (average + 1) * Min(|counts|, size + 1)
      ensures epochSum == Sum(Newest(counts, Summed(atxBufferSize, epochBlocks)))
      ensures forall k :: k != key ==> redis.List(k) == old(redis.List(k))
    {
      hide Sum, Quotient, Transfers, Readable, Newest;
      var transfersInBlock := CountTransfers(transactions);
      redis.LPush(key, Number(transfersInBlock));
      Pushed(counts, Number(transfersInBlock), size);
      counts := [Number(transfersInBlock)] + counts;
      var popExcess := atxBufferSize > epochBlocks;
      Again(counts, size + 1, atxBufferSize);
      Again(counts, size + 1, atxBufferSize + 1);
      Again(counts, atxBufferSize, atxBufferSize + 1);
      Again(counts, Averaged(atxBufferSize, epochBlocks), 0);
      var r := CalculateMovingAverageAndSumMaybePop(redis, key, atxBufferSize, popExcess);
      average := r.value.0;
      QuotientBrackets(Sum(Newest(counts, Averaged(atxBufferSize, epochBlocks))), Min(|counts|, size + 1));
      Again(counts, size + 1, epochBlocks);
      Again(counts, size, epochBlocks + 1);
      Again(counts, Summed(atxBufferSize, epochBlocks), 0);
      r := CalculateMovingAverageAndSumMaybePop(redis, key, epochBlocks, !popExcess);
      epochSum := r.value.1;
    }
  }

  // ---- how far the average can be trusted

  ghost predicate Steady(counts: seq<Item>, c: int) {
    forall x :: x in counts ==> x == Number(c)
  }

  lemma {:induction false} SteadySum(counts: seq<Item>, c: int)
    requires Steady(counts, c)
    ensures Sum(counts) == Times(|counts|, c)
  {
    if counts != [] {
      var before := counts[..|counts| - 1];
      assert counts[|counts| - 1] in counts;
      forall x | x in before ensures x == Number(c) {
        assert x in counts;
      }
      SteadySum(before, c);
    }
  }

  lemma Divide(n: nat, l: nat, c: nat)
    requires 0 < n <= l && c > 0
    ensures (n * c) / l <= c
    ensures (n * c) / l == c <==> n == l
  {
    var q := (n * c) / l;
    assert l * q <= n * c < l * q + l;
    if q >= c {
      LessTimes(l, c, q);
      if n < l {
        LessTimes(c, n + 1, l);
      }
      if q > c {
        LessTimes(l, c + 1, q);
        LessTimes(c, n, l);
      }
    }
    if n == l {
      if q < c {
        LessTimes(l, q + 1, c);
      }
    }
  }

  lemma LessTimes(e: nat, x: int, y: int)
    requires x <= y
    ensures e * x <= e * y
  {}

  lemma QuotientOf(sum: int, n: nat, l: nat, c: nat)
    requires sum == n * c && 0 < n <= l && c > 0
    ensures Quotient(sum, l) <= c && (Quotient(sum, l) == c <==> n == l)
  {
    LessTimes(c, 0, n);
    Divide(n, l, c);
  }

  /** With the same count in every block, the average is that count exactly while the blocks are no more
      than are averaged (or the two lengths agree), and below it from then on. */
  lemma SteadyAverage(counts: seq<Item>, c: nat, atx: nat, epoch: nat)
    requires Steady(counts, c) && counts != [] && c > 0 && atx + epoch > 0
    ensures var taken, size := Averaged(atx, epoch), Max(atx, epoch);
            var average := Quotient(Sum(Newest(counts, taken)), Min(|counts|, size + 1));
            && average <= c
            && (average == c <==> |counts| <= taken || taken == size + 1)
  {
    var taken, size := Averaged(atx, epoch), Max(atx, epoch);
    var scanned := Newest(counts, taken);
    forall x | x in scanned ensures x == Number(c) {
      assert x in counts;
    }
    SteadySum(scanned, c);
    TimesIsProduct(|scanned|, c);
    assert |scanned| == Min(|counts|, taken);
    QuotientOf(Sum(scanned), |scanned|, Min(|counts|, size + 1), c);
  }

  ghost predicate AllWithin(items: seq<Item>, least: int, greatest: int) {
    forall x :: x in items ==> x.Number? && least <= x.n <= greatest
  }

  lemma {:induction false} SumWithin(items: seq<Item>, least: int, greatest: int)
    requires AllWithin(items, least, greatest)
    ensures least * |items| <= Sum(items) <= greatest * |items|
  {
    if items != [] {
      var before, last := items[..|items| - 1], items[|items| - 1];
      assert last in items;
      forall x | x in before ensures x in items {}
      SumWithin(before, least, greatest);
      OneMore(least, |before|);
      OneMore(greatest, |before|);
    }
  }

  lemma OneMore(x: int, n: int)
    ensures x * (n + 1) == x * n + x
  {}

  lemma QuotientAtMost(sum: int, n: nat, greatest: int)
    requires n > 0 && sum <= greatest * n
    ensures Quotient(sum, n) <= greatest
  {
    hide Quotient;
    var q := Quotient(sum, n);
    QuotientBrackets(sum, n);
    if sum >= 0 {
      OneMore(n, greatest);
      LessFactor(q, greatest + 1, n);
    } else {
      LessFactor(q - 1, greatest, n);
    }
  }

  lemma QuotientAtLeast(sum: int, n: nat, least: int)
    requires n > 0 && least * n <= sum
    ensures least <= Quotient(sum, n)
  {
    hide Quotient;
    var q := Quotient(sum, n);
    QuotientBrackets(sum, n);
    if sum >= 0 {
      LessFactor(least, q + 1, n);
    } else {
      OneMore(n, least - 1);
      LessFactor(least - 1, q, n);
    }
  }

  lemma LessFactor(x: int, y: int, n: nat)
    requires n > 0 && x * n < y * n
    ensures x < y
  {}

  /** While as many entries are summed as are divided by, the average lies between the least and the greatest
      of them. Otherwise it still does not pass the greatest, if that is not negative. */
  lemma AverageBetween(counts: seq<Item>, atx: nat, epoch: nat, least: int, greatest: int)
    requires counts != [] && atx + epoch > 0
    requires AllWithin(Newest(counts, Averaged(atx, epoch)), least, greatest)
    ensures var taken, size := Averaged(atx, epoch), Max(atx, epoch);
            var average := Quotient(Sum(Newest(counts, taken)), Min(|counts|, size + 1));
            && (|counts| <= taken || taken == size + 1 ==> least <= average <= greatest)
            && (greatest >= 0 ==> average <= greatest)
  {
    hide Quotient, AllWithin, Sum;
    var taken, size := Averaged(atx, epoch), Max(atx, epoch);
    var scanned, n := Newest(counts, taken), Min(|counts|, size + 1);
    SumWithin(scanned, least, greatest);
    if |scanned| == n {
      QuotientAtLeast(Sum(scanned), n, least);
      QuotientAtMost(Sum(scanned), n, greatest);
    } else if greatest >= 0 {
      LessTimes(greatest, |scanned|, n);
      QuotientAtMost(Sum(scanned), n, greatest);
    }
  }

  /** All the transfers of all the transactions. */
  lemma {:induction false} TransfersAdds(some: seq<nat>, more: seq<nat>)
    ensures Transfers(some + more) == Transfers(some) + Transfers(more)
  {
    if more == [] {
      assert some + more == some;
    } else {
      TransfersAdds(some, more[..|more| - 1]);
      assert (some + more)[..|some + more| - 1] == some + more[..|more| - 1];
    }
  }

  lemma TransfersOfOne(n: nat)
    ensures Transfers([n]) == n
  {
    assert Transfers([]) == 0;
  }

  function Transfers(transactions: seq<nat>): nat {
    if transactions == [] then 0 else Transfers(transactions[..|transactions| - 1]) + transactions[|transactions| - 1]
  }

  method CountTransfers(transactions: seq<nat>) returns (n: nat)
    ensures n == Transfers(transactions)
  {
    n := 0;
    for i := 0 to |transactions|
      invariant n == Transfers(transactions[..i])
    {
      assert transactions[..i + 1][..i] == transactions[..i];
      n := n + transactions[i];
    }
    assert transactions[..|transactions|] == transactions;
  }
}
