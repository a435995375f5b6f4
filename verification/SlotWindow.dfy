/** The Solana connector's memory of sent slots: a sorted set cut to its 100 largest members, and the
    backfill of confirmed blocks (cmd/connector-solana-amqp/main.go). */
module SlotWindow {
  import opened Options

  const BUFFER_SIZE := 100
  const PAGE_LENGTH := 1000

  // ---- sorted sets whose members are their own scores

  predicate IsLeast(x: nat, s: set<nat>) {
    x in s && forall y :: y in s ==> x <= y
  }

  lemma {:induction false} LeastExists(s: set<nat>)
    requires s != {}
    ensures exists x :: IsLeast(x, s)
  {
    var x :| x in s;
    if s == {x} {
      assert IsLeast(x, s);
    } else {
      LeastExists(s - {x});
      var y :| IsLeast(y, s - {x});
      assert s == (s - {x}) + {x};
      assert IsLeast(if x < y then x else y, s);
    }
  }

  function Least(s: set<nat>): (x: nat)
    requires s != {}
    ensures IsLeast(x, s)
  {
    LeastExists(s);
    var x :| IsLeast(x, s);
    x
  }

  /** ZRemRangeByRank(key, 0, -(k + 1)): all but the k members of highest rank go. */
  function KeepHighest(s: set<nat>, k: nat): (t: set<nat>)
    ensures t <= s && |t| == if |s| < k then |s| else k
    decreases |s|
  {
    if |s| <= k then s else KeepHighest(s - {Least(s)}, k)
  }

  function Above(s: set<nat>, x: nat): set<nat> {
    set y | y in s && y > x
  }

  /** A member survives exactly when fewer than k members are above it. */
  lemma {:induction false} KeepHighestExactly(s: set<nat>, k: nat, x: nat)
    ensures x in KeepHighest(s, k) <==> x in s && |Above(s, x)| < k
    decreases |s|
  {
    if |s| <= k {
      if x in s {
        Smaller(Above(s, x), s, x);
      }
    } else {
      var least := Least(s);
      KeepHighestExactly(s - {least}, k, x);
      if x == least {
        assert Above(s, x) == s - {least};
      } else if x in s {
        assert Above(s, x) == Above(s - {least}, x);
      }
    }
  }

  lemma Smaller(a: set<nat>, s: set<nat>, x: nat)
    requires a <= s && x in s && x !in a
    ensures |a| < |s|
  {
    Subset(a, s - {x});
  }

  lemma {:induction false} Subset(a: set<nat>, b: set<nat>)
    requires a <= b
    ensures |a| <= |b|
    decreases b
  {
    if b != {} {
      var x :| x in b;
      Subset(a - {x}, b - {x});
    }
  }

  /** ZExists reports a member only when its score is positive. */
  predicate Exists(s: set<nat>, slot: nat) {
    slot in s && slot > 0
  }

  // ---- the window and what it lets through, over a history of processed slots

  function Window(slots: seq<nat>): set<nat> {
    if slots == [] then {} else
      var w, slot := Window(slots[..|slots| - 1]), slots[|slots| - 1];
      if Exists(w, slot) then w else KeepHighest(w + {slot}, BUFFER_SIZE)
  }

  function Sent(slots: seq<nat>): seq<nat> {
    if slots == [] then [] else
      var before, slot := slots[..|slots| - 1], slots[|slots| - 1];
      Sent(before) + if Exists(Window(before), slot) then [] else [slot]
  }

  function Seen(slots: seq<nat>): set<nat> {
    set x | x in slots
  }

  lemma SeenLast(slots: seq<nat>)
    requires slots != []
    ensures Seen(slots) == Seen(slots[..|slots| - 1]) + {slots[|slots| - 1]}
  {
    assert slots == slots[..|slots| - 1] + [slots[|slots| - 1]];
  }

  lemma KeepHighestAbsorbs(s: set<nat>, x: nat, k: nat)
    ensures KeepHighest(KeepHighest(s, k) + {x}, k) == KeepHighest(s + {x}, k)
  {
    var t := KeepHighest(s, k);
    forall y ensures y in KeepHighest(t + {x}, k) <==> y in KeepHighest(s + {x}, k) {
      KeepHighestExactly(t + {x}, k, y);
      KeepHighestExactly(s + {x}, k, y);
      KeepHighestExactly(s, k, y);
      SurvivorsAbove(s, x, k, y);
    }
  }

  /** Cutting s first changes whether y has k members above it neither way, for y in s or new. */
  lemma SurvivorsAbove(s: set<nat>, x: nat, k: nat, y: nat)
    ensures var t := KeepHighest(s, k);
            y in t || y == x ==> (|Above(t + {x}, y)| < k <==> |Above(s + {x}, y)| < k)
    ensures y in s && y !in KeepHighest(s, k) ==> |Above(s + {x}, y)| >= k
  {
    var t := KeepHighest(s, k);
    if y in s && y !in t {
      KeepHighestExactly(s, k, y);
      Subset(Above(s, y), Above(s + {x}, y));
    }
    if y in t {
      KeepHighestExactly(s, k, y);
      forall z | z in Above(s, y) ensures z in t {
        KeepHighestExactly(s, k, z);
        Subset(Above(s, z), Above(s, y));
      }
      assert Above(t + {x}, y) == Above(s + {x}, y);
    } else if y == x {
      Subset(Above(t + {x}, y), Above(s + {x}, y));
      if |Above(t, x)| < k {
        forall z | z in Above(s, x) ensures z in t {
          MissingMeansFull(s, k, x, z);
        }
        assert Above(t + {x}, x) == Above(s + {x}, x);
      } else {
        assert Above(t + {x}, x) == Above(t, x);
      }
    }
  }

  /** If some member above x was cut, the k that remain are all above x. */
  lemma MissingMeansFull(s: set<nat>, k: nat, x: nat, z: nat)
    requires z in s && z > x && |Above(KeepHighest(s, k), x)| < k
    ensures z in KeepHighest(s, k)
  {
    var t := KeepHighest(s, k);
    if z !in t {
      KeepHighestExactly(s, k, z);
      Smaller(Above(s, z), s, z);
      forall w | w in t ensures w > x {
        KeepHighestExactly(s, k, w);
        if w <= x {
          Subset(Above(s, z), Above(s, w));
        }
      }
      AllAbove(t, x);
    }
  }

  lemma AllAbove(t: set<nat>, x: nat)
    requires forall w :: w in t ==> w > x
    ensures |Above(t, x)| == |t|
  {
    assert Above(t, x) == t;
  }

  /** After any history the window is the 100 largest slots ever processed. */
  lemma {:induction false} WindowIsHighest(slots: seq<nat>)
    ensures Window(slots) == KeepHighest(Seen(slots), BUFFER_SIZE)
  {
    if slots == [] {
      assert Seen(slots) == {};
    } else {
      var before, slot := slots[..|slots| - 1], slots[|slots| - 1];
      WindowIsHighest(before);
      SeenLast(slots);
      if Exists(Window(before), slot) {
        assert Seen(before) + {slot} == Seen(before);
      } else {
        KeepHighestAbsorbs(Seen(before), slot, BUFFER_SIZE);
      }
    }
  }

  /** A slot is let through unless it was processed before and fewer than 100 processed slots are
      above it; slot 0 always is. */
  lemma SentExactly(slots: seq<nat>, slot: nat)
    ensures Exists(Window(slots), slot) <==>
      slot > 0 && slot in slots && |Above(Seen(slots), slot)| < BUFFER_SIZE
  {
    WindowIsHighest(slots);
    KeepHighestExactly(Seen(slots), BUFFER_SIZE, slot);
  }

  /** So a slot is sent again only from below a full window. */
  lemma SentAgainOnlyFromBelow(slots: seq<nat>, slot: nat)
    requires slot > 0 && slot in slots && !Exists(Window(slots), slot)
    ensures |Window(slots)| == BUFFER_SIZE
    ensures forall x :: x in Window(slots) ==> slot < x
  {
    SentExactly(slots, slot);
    WindowIsHighest(slots);
    var seen := Seen(slots);
    Subset(Above(seen, slot), seen);
    forall x | x in Window(slots) ensures slot < x {
      KeepHighestExactly(seen, BUFFER_SIZE, x);
      if x <= slot {
        Subset(Above(seen, slot), Above(seen, x));
      }
    }
  }

  /** Memory that never forgets: each slot at its first occurrence. */
  function FirstTimes(slots: seq<nat>): seq<nat> {
    if slots == [] then [] else
      var before, slot := slots[..|slots| - 1], slots[|slots| - 1];
      FirstTimes(before) + if slot in before then [] else [slot]
  }

  /** No slot comes back as 0 or from below 100 greater ones. */
  ghost predicate NoLateRepeat(slots: seq<nat>) {
    forall i :: 0 <= i < |slots| && slots[i] in slots[..i] ==>
      slots[i] > 0 && |Above(Seen(slots[..i]), slots[i])| < BUFFER_SIZE
  }

  lemma NoLateRepeatStep(slots: seq<nat>)
    requires slots != []
    ensures var before, slot := slots[..|slots| - 1], slots[|slots| - 1];
            NoLateRepeat(slots) <==>
              && NoLateRepeat(before)
              && (slot in before ==> slot > 0 && |Above(Seen(before), slot)| < BUFFER_SIZE)
  {
    var before := slots[..|slots| - 1];
    forall i | 0 <= i < |before| ensures before[..i] == slots[..i] && before[i] == slots[i] {}
  }

  lemma {:induction false} NeverFewer(slots: seq<nat>)
    ensures |FirstTimes(slots)| <= |Sent(slots)|
    ensures |FirstTimes(slots)| == |Sent(slots)| <==> NoLateRepeat(slots)
    ensures NoLateRepeat(slots) ==> FirstTimes(slots) == Sent(slots)
  {
    if slots != [] {
      var before, slot := slots[..|slots| - 1], slots[|slots| - 1];
      NeverFewer(before);
      SentExactly(before, slot);
      NoLateRepeatStep(slots);
    }
  }

  /** The bounded window behaves as the unbounded memory if and only if no slot repeats late. */
  lemma WindowRefinesMemory(slots: seq<nat>)
    ensures Sent(slots) == FirstTimes(slots) <==> NoLateRepeat(slots)
  {
    NeverFewer(slots);
  }

  // ---- confirmed blocks

  /** The confirmed blocks of the chain, in order. */
  predicate Ascending(chain: seq<nat>) {
    forall i, j :: 0 <= i < j < |chain| ==> chain[i] < chain[j]
  }

  function From(chain: seq<nat>, from: nat): seq<nat> {
    if chain == [] || chain[0] >= from then chain else From(chain[1..], from)
  }

  /** GetConfirmedBlocks: the first `limit` confirmed blocks not below `from`. */
  function ConfirmedBlocks(chain: seq<nat>, from: nat, limit: nat): seq<nat> {
    var later := From(chain, from);
    if |later| <= limit then later else later[..limit]
  }

  lemma {:induction false} FromSplits(chain: seq<nat>, from: nat, n: nat)
    requires Ascending(chain) && 0 < n <= |From(chain, from)|
    ensures From(chain, From(chain, from)[n - 1] + 1) == From(chain, from)[n..]
  {
    if chain != [] && chain[0] < from {
      FromSplits(chain[1..], from, n);
      FromMember(chain[1..], from, n - 1);
    } else {
      DropsPrefix(chain, n);
    }
  }

  lemma {:induction false} FromMember(chain: seq<nat>, from: nat, i: nat)
    requires i < |From(chain, from)|
    ensures From(chain, from)[i] in chain
  {
    if chain != [] && chain[0] < from {
      FromMember(chain[1..], from, i);
    }
  }

  lemma {:induction false} DropsPrefix(chain: seq<nat>, n: nat)
    requires Ascending(chain) && 0 < n <= |chain|
    ensures From(chain, chain[n - 1] + 1) == chain[n..]
  {
    if n == 1 {
      assert chain[1..] == [] || chain[1..][0] >= chain[0] + 1;
    } else {
      DropsPrefix(chain[1..], n - 1);
      assert chain[1..][n - 1..] == chain[n..];
    }
  }

  /** What is confirmed from a point on is exactly the blocks not below it. */
  lemma {:induction false} FromExactly(chain: seq<nat>, from: nat, b: nat)
    requires Ascending(chain)
    ensures b in From(chain, from) <==> b in chain && b >= from
    ensures Ascending(From(chain, from))
  {
    if chain != [] && chain[0] < from {
      FromExactly(chain[1..], from, b);
    } else if b in chain {
      var i :| 0 <= i < |chain| && chain[i] == b;
    }
  }

  lemma NextPage(due: seq<nat>, done: nat, blocks: seq<nat>)
    requires done <= |due|
    requires blocks == if |due| - done <= PAGE_LENGTH then due[done..] else due[done..][..PAGE_LENGTH]
    ensures done + |blocks| <= |due| && due[..done] + blocks == due[..done + |blocks|]
    ensures due[done..][|blocks|..] == due[done + |blocks|..]
    ensures blocks != [] ==> blocks[|blocks| - 1] == due[done + |blocks| - 1] == due[done..][|blocks| - 1]
    ensures |blocks| != PAGE_LENGTH ==> done + |blocks| == |due|
  {}

  // ---- the connector

  class Connector {
    var sent: set<nat>              // the Redis sorted set
    var lastBlocks: map<string, nat>
    var queue: seq<nat>             // what was sent downstream
    ghost var slots: seq<nat>       // every slot processed so far

    ghost predicate Valid()
      reads this
    {
      sent == Window(slots) && queue == Sent(slots)
    }

    constructor ()
      ensures Valid() && slots == []
    {
      sent, lastBlocks, queue, slots := {}, map[], [], [];
    }

    method ProcessSlot(redisKey: string, slot: nat)
      requires Valid()
      modifies this
      ensures Valid() && slots == old(slots) + [slot]
      ensures lastBlocks == if redisKey != "" then old(lastBlocks)[redisKey := slot] else old(lastBlocks)
    {
      assert (slots + [slot])[..|slots|] == slots;
      slots := slots + [slot];
      if redisKey != "" {
        lastBlocks := lastBlocks[redisKey := slot];
      }
      if Exists(sent, slot) {
        return;
      }
      sent := sent + {slot};
      sent := KeepHighest(sent, BUFFER_SIZE);
      queue := queue + [slot];
    }

    method ProcessSlots(blocks: seq<nat>)
      requires Valid()
      modifies this
      ensures Valid() && slots == old(slots) + blocks && lastBlocks == old(lastBlocks)
    {
      hide Window, Sent;
      for i := 0 to |blocks|
        invariant Valid() && slots == old(slots) + blocks[..i] && lastBlocks == old(lastBlocks)
      {
        ProcessSlot("", blocks[i]);
      }
    }

    /** Processes every confirmed block from `from0` on, once each and in order; a failing call stops
        it after the whole pages of the calls before. `fails` says which calls to the node fail. */
    method UpdateConfirmedBlocksFrom(chain: seq<nat>, from0: nat, fails: nat -> bool) returns (last: Option<nat>)
      requires Valid() && Ascending(chain)
      modifies this
      ensures Valid() && lastBlocks == old(lastBlocks)
      ensures var due := From(chain, from0);
              && (last.Some? ==> slots == old(slots) + due && last.value == if due == [] then 0 else due[|due| - 1])
              && (last.Some? <==> forall k :: 0 <= k <= |due| / PAGE_LENGTH ==> !fails(k))
              && (last.None? ==> exists k: nat ::
                   && fails(k) && (forall j :: 0 <= j < k ==> !fails(j))
                   && k * PAGE_LENGTH <= |due| && slots == old(slots) + due[..k * PAGE_LENGTH])
    {
      hide Window, Sent, From, Ascending;
      var lastBlock, from, call := 0, from0, 0;
      ghost var due, done := From(chain, from0), 0;
      while true
        invariant Valid() && lastBlocks == old(lastBlocks)
        invariant done == call * PAGE_LENGTH <= |due| && slots == old(slots) + due[..done]
        invariant forall j :: 0 <= j < call ==> !fails(j)
        invariant From(chain, from) == due[done..]
        invariant lastBlock == if done == 0 then 0 else due[done - 1]
        decreases |due| - done
      {
        if fails(call) {
          return None;
        }
        var blocks := ConfirmedBlocks(chain, from, PAGE_LENGTH);
        NextPage(due, done, blocks);
        ProcessSlots(blocks);
        if |blocks| == 0 {
          return Some(lastBlock);
        }
        lastBlock := blocks[|blocks| - 1];
        FromSplits(chain, from, |blocks|);
        done := done + |blocks|;
        if |blocks| != PAGE_LENGTH {
          return Some(lastBlock);
        }
        from := lastBlock + 1;
        call := call + 1;
      }
    }
  }
}
