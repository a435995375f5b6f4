/** The Ethereum log connector: pages of past logs, then one block's worth of memory to drop repeats and
    a persisted cursor to restart from (cmd/connector-ethereum-reward-logs-amqp/main.go). */
module LogConnector {
  import opened Options

  const UINT64 := 0x1_0000_0000_0000_0000

  datatype Log = Log(block: nat, index: nat, removed: bool, data: string)

  // ---- pages

  datatype Page = Page(from: nat, to: nat)

  /** A page and the logs the node gave for it. */
  datatype Answer = Answer(page: Page, logs: seq<Log>)

  function NotBelow(logs: seq<Log>, from: nat): seq<Log> {
    if logs == [] then [] else
      (if logs[0].block < from then [] else [logs[0]]) + NotBelow(logs[1..], from)
  }

  function Between(logs: seq<Log>, from: nat, to: nat): seq<Log> {
    if logs == [] then [] else
      (if from <= logs[0].block <= to then [logs[0]] else []) + Between(logs[1..], from, to)
  }

  /** Both take each log by itself, in order. */
  lemma {:induction false} TakenInOrder(some: seq<Log>, more: seq<Log>, from: nat, to: nat)
    ensures NotBelow(some + more, from) == NotBelow(some, from) + NotBelow(more, from)
    ensures Between(some + more, from, to) == Between(some, from, to) + Between(more, from, to)
  {
    if some == [] {
      assert some + more == more;
    } else {
      hide *;
      TakenInOrder(some[1..], more, from, to);
      TakeHead(some + more, from, to);
      TakeHead(some, from, to);
      assert (some + more)[0] == some[0] && (some + more)[1..] == some[1..] + more;
      Join(NotBelow([some[0]], from), NotBelow(some[1..], from), NotBelow(more, from));
      Join(Between([some[0]], from, to), Between(some[1..], from, to), Between(more, from, to));
    }
  }

  lemma Join(s: seq<Log>, t: seq<Log>, u: seq<Log>)
    ensures s + (t + u) == s + t + u
  {}

  lemma TakeHead(logs: seq<Log>, from: nat, to: nat)
    requires logs != []
    ensures NotBelow(logs, from) == NotBelow([logs[0]], from) + NotBelow(logs[1..], from)
    ensures Between(logs, from, to) == Between([logs[0]], from, to) + Between(logs[1..], from, to)
  {
    TakenAlone(logs[0], from, to);
  }

  lemma TakenAlone(l: Log, from: nat, to: nat)
    ensures NotBelow([l], from) == if l.block >= from then [l] else []
    ensures Between([l], from, to) == if from <= l.block <= to then [l] else []
  {
    assert NotBelow([], from) == Between([], from, to) == [];
  }

  /** Each page starts right after the one before, and all are of one size. */
  ghost predicate Tiled(answers: seq<Answer>, from: nat, amount: nat) {
    answers == [] || (
      && answers[0].page == Page(from, from + amount)
      && Tiled(answers[1..], from + amount + 1, amount))
  }

  function Forwarded(answers: seq<Answer>): seq<Log> {
    if answers == [] then [] else NotBelow(answers[0].logs, answers[0].page.from) + Forwarded(answers[1..])
  }

  predicate InPage(b: nat, a: Answer) {
    a.page.from <= b <= a.page.to
  }

  function End(answers: seq<Answer>, from: nat): nat {
    if answers == [] then from else answers[|answers| - 1].page.to + 1
  }

  /** The pages hold every block from the first to the last of them, and none of those twice. */
  lemma {:induction false} PagesPartition(answers: seq<Answer>, from: nat, amount: nat, b: nat)
    requires Tiled(answers, from, amount)
    ensures from <= b < End(answers, from) <==> exists i :: 0 <= i < |answers| && InPage(b, answers[i])
    ensures forall i, j :: 0 <= i < j < |answers| && InPage(b, answers[i]) ==> !InPage(b, answers[j])
  {
    if answers != [] {
      var rest, next := answers[1..], from + amount + 1;
      PagesPartition(rest, next, amount, b);
      EndNotBelow(rest, next, amount);
      assert End(answers, from) == End(rest, next);
      if from <= b < next {
        assert InPage(b, answers[0]);
      } else if next <= b < End(rest, next) {
        var i :| 0 <= i < |rest| && InPage(b, rest[i]);
        assert InPage(b, answers[i + 1]);
      }
      forall i | 0 <= i < |answers| && InPage(b, answers[i])
        ensures from <= b < End(answers, from) && (i > 0 ==> b >= next)
      {
        if i > 0 {
          assert InPage(b, rest[i - 1]);
        }
      }
      forall i, j | 0 <= i < j < |answers| && InPage(b, answers[i]) ensures !InPage(b, answers[j]) {
        if i > 0 {
          assert InPage(b, rest[i - 1]) && !InPage(b, rest[j - 1]);
        }
      }
    }
  }

  lemma {:induction false} EndNotBelow(answers: seq<Answer>, from: nat, amount: nat)
    requires Tiled(answers, from, amount)
    ensures End(answers, from) >= from
  {
    if answers != [] {
      EndNotBelow(answers[1..], from + amount + 1, amount);
      assert End(answers, from) == End(answers[1..], from + amount + 1);
    }
  }

  predicate Ordered(logs: seq<Log>) {
    forall i, j :: 0 <= i < j < |logs| ==> logs[i].block <= logs[j].block
  }

  /** A node that answers, beyond stray blocks below the range, with the chain's logs in that range. */
  ghost predicate Faithful(answers: seq<Answer>, chain: seq<Log>) {
    forall a :: a in answers ==> NotBelow(a.logs, a.page.from) == Between(chain, a.page.from, a.page.to)
  }

  lemma {:induction false} BetweenJoins(logs: seq<Log>, from: nat, middle: nat, end: nat)
    requires Ordered(logs) && from <= middle <= end
    ensures Between(logs, from, middle) + Between(logs, middle + 1, end) == Between(logs, from, end)
  {
    if logs != [] {
      BetweenJoins(logs[1..], from, middle, end);
      if logs[0].block > middle {
        NoneBetween(logs[1..], from, middle);
      }
    }
  }

  lemma {:induction false} NoneBetween(logs: seq<Log>, from: nat, to: nat)
    requires forall l :: l in logs ==> l.block > to || l.block < from
    ensures Between(logs, from, to) == []
  {
    if logs != [] {
      NoneBetween(logs[1..], from, to);
    }
  }

  /** What went down the channel is the chain's logs in the whole range, in chain order. */
  lemma {:induction false} ForwardedIsChain(answers: seq<Answer>, from: nat, amount: nat, chain: seq<Log>)
    requires answers != [] && Tiled(answers, from, amount) && Faithful(answers, chain) && Ordered(chain)
    ensures from < End(answers, from) && Forwarded(answers) == Between(chain, from, End(answers, from) - 1)
  {
    hide Between, NotBelow, Ordered;
    assert answers[0] in answers;
    var rest, next := answers[1..], from + amount + 1;
    if rest == [] {
      assert Forwarded(rest) == [];
    } else {
      ForwardedIsChain(rest, next, amount, chain);
      assert End(rest, next) == End(answers, from);
      BetweenJoins(chain, from, from + amount, End(answers, from) - 1);
    }
  }

  /** The node: what its successive calls return, None for an error. */
  datatype Node = Node(heights: nat -> Option<nat>, filter: (nat, Page) -> Option<seq<Log>>)

  ghost predicate HeightsBounded(node: Node, bound: nat) {
    forall k :: node.heights(k).Some? ==> node.heights(k).value <= bound
  }

  lemma HeightBounded(node: Node, bound: nat, call: nat)
    requires HeightsBounded(node, bound) && node.heights(call).Some?
    ensures node.heights(call).value <= bound
  {}

  /** The answers are the node's own, and every page but the last fell short of the height it reported. */
  ghost predicate Exchange(node: Node, call: nat, answers: seq<Answer>)
    decreases answers
  {
    answers == [] || (
      && node.filter(call, answers[0].page) == Some(answers[0].logs)
      && node.heights(call).Some?
      && (|answers| > 1 ==> answers[0].page.to < node.heights(call).value)
      && Exchange(node, call + 1, answers[1..]))
  }

  class Channel {
    var logs: seq<Log>

    constructor ()
      ensures logs == []
    {
      logs := [];
    }
  }

  /** Returns the end of the last page, at or past the height last reported, or None after an error,
      when what was sent is still all that the answered pages hold. */
  method PaginateLogs(node: Node, call: nat, from: nat, amount: nat, chan: Channel, ghost bound: nat)
    returns (last: Option<nat>, ghost answers: seq<Answer>)
    requires HeightsBounded(node, bound)
    requires from + amount < UINT64 && bound + amount < UINT64
    modifies chan
    ensures Tiled(answers, from, amount)
    ensures chan.logs == old(chan.logs) + Forwarded(answers)
    ensures Exchange(node, call, answers)
    ensures last.Some? ==>
      && answers != []
      && last.value == End(answers, from) - 1
      && node.heights(call + |answers| - 1).Some?
      && last.value >= node.heights(call + |answers| - 1).value
    ensures last.None? ==>
      || node.heights(call + |answers|).None?
      || node.filter(call + |answers|, Page(End(answers, from), End(answers, from) + amount)).None?
    decreases bound + 1 - from
  {
    hide NotBelow, HeightsBounded, Tiled, Forwarded, Exchange, End;
    NoAnswers(node, call, from, amount);
    answers := [];
    var height := node.heights(call);
    if height.None? {
      return None, [];
    }
    var next := (from + amount) % UINT64;
    var response := node.filter(call, Page(from, next));
    if response.None? {
      return None, [];
    }
    ForwardAll(response.value, from, chan);
    ghost var answer := Answer(Page(from, next), response.value);
    HeightBounded(node, bound, call);
    if next < height.value {
      ghost var later;
      last, later := PaginateLogs(node, call + 1, (next + 1) % UINT64, amount, chan, bound);
      answers := [answer] + later;
      Prepend(node, call, answer, later, amount);
    } else {
      answers := [answer];
      NoAnswers(node, call + 1, next + 1, amount);
      Prepend(node, call, answer, [], amount);
      assert [answer] + [] == [answer];
      last := Some(next);
    }
  }

  lemma NoAnswers(node: Node, call: nat, from: nat, amount: nat)
    ensures Tiled([], from, amount) && Exchange(node, call, []) && Forwarded([]) == [] && End([], from) == from
  {}

  lemma Prepend(node: Node, call: nat, answer: Answer, later: seq<Answer>, amount: nat)
    requires answer.page.to == answer.page.from + amount
    requires Tiled(later, answer.page.to + 1, amount) && Exchange(node, call + 1, later)
    requires node.filter(call, answer.page) == Some(answer.logs) && node.heights(call).Some?
    requires later != [] ==> answer.page.to < node.heights(call).value
    ensures Tiled([answer] + later, answer.page.from, amount) && Exchange(node, call, [answer] + later)
    ensures Forwarded([answer] + later) == NotBelow(answer.logs, answer.page.from) + Forwarded(later)
    ensures End([answer] + later, answer.page.from) == End(later, answer.page.to + 1)
  {
    assert ([answer] + later)[1..] == later;
  }

  lemma {:induction false} NotBelowStep(logs: seq<Log>, i: nat, from: nat)
    requires i < |logs|
    ensures NotBelow(logs[..i + 1], from) ==
      NotBelow(logs[..i], from) + if logs[i].block < from then [] else [logs[i]]
  {
    if i > 0 {
      NotBelowStep(logs[1..], i - 1, from);
      assert logs[1..][..i] == logs[..i + 1][1..] && logs[1..][..i - 1] == logs[..i][1..];
    } else {
      assert logs[..1][1..] == [];
    }
  }

  method ForwardAll(logs: seq<Log>, from: nat, chan: Channel)
    modifies chan
    ensures chan.logs == old(chan.logs) + NotBelow(logs, from)
  {
    for i := 0 to |logs|
      invariant chan.logs == old(chan.logs) + NotBelow(logs[..i], from)
    {
      NotBelowStep(logs, i, from);
      if logs[i].block < from {
        continue;
      }
      chan.logs := chan.logs + [logs[i]];
    }
    assert logs[..|logs|] == logs;
  }

  // ---- repeats

  datatype Key = Key(block: nat, index: nat)

  function KeyOf(l: Log): Key {
    Key(l.block, l.index)
  }

  function Live(logs: seq<Log>): (live: seq<Log>)
    ensures forall l :: l in live <==> l in logs && !l.removed
  {
    if logs == [] then [] else
      Live(logs[..|logs| - 1]) + if logs[|logs| - 1].removed then [] else [logs[|logs| - 1]]
  }

  /** The indices in the run of logs of one block that ends the history. */
  function RunOf(logs: seq<Log>, block: nat): set<nat> {
    if logs == [] || logs[|logs| - 1].block != block then {} else
      RunOf(logs[..|logs| - 1], block) + {logs[|logs| - 1].index}
  }

  /** What is sent by a memory that holds the last block only. */
  function OneBlock(logs: seq<Log>): seq<Log> {
    if logs == [] then [] else
      var before, l := logs[..|logs| - 1], logs[|logs| - 1];
      OneBlock(before) + if l.index in RunOf(before, l.block) then [] else [l]
  }

  function Keys(logs: seq<Log>): set<Key> {
    set l | l in logs :: KeyOf(l)
  }

  /** What is sent by a memory that never forgets. */
  function FirstTimes(logs: seq<Log>): seq<Log> {
    if logs == [] then [] else
      var before, l := logs[..|logs| - 1], logs[|logs| - 1];
      FirstTimes(before) + if KeyOf(l) in Keys(before) then [] else [l]
  }

  /** No log recurs with a log of another block in between. */
  ghost predicate NoReturn(logs: seq<Log>) {
    forall i, j, k :: 0 <= i < j < k < |logs| && KeyOf(logs[i]) == KeyOf(logs[k]) ==>
      logs[j].block == logs[k].block
  }

  /** An index is in the run that ends a history when it came there with no other block since. */
  lemma {:induction false} RunExactly(logs: seq<Log>, key: Key)
    ensures key.index in RunOf(logs, key.block) <==>
      exists i :: 0 <= i < |logs| && KeyOf(logs[i]) == key && forall j :: i < j < |logs| ==> logs[j].block == key.block
  {
    if logs != [] {
      var before, n := logs[..|logs| - 1], |logs| - 1;
      RunExactly(before, key);
      if key.index in RunOf(logs, key.block) {
        if key.index in RunOf(before, key.block) {
          var i :| 0 <= i < n && KeyOf(before[i]) == key && forall j :: i < j < n ==> before[j].block == key.block;
          assert KeyOf(logs[i]) == key;
          forall j | i < j < |logs| ensures logs[j].block == key.block {
            assert j < n ==> logs[j] == before[j];
          }
        } else {
          assert KeyOf(logs[n]) == key;
        }
      }
      if i :| 0 <= i < |logs| && KeyOf(logs[i]) == key && forall j :: i < j < |logs| ==> logs[j].block == key.block {
        if i < n {
          assert logs[n].block == key.block;
          assert KeyOf(before[i]) == key;
          forall j | i < j < n ensures before[j].block == key.block {
            assert logs[j] == before[j];
          }
        }
      }
    }
  }

  lemma RunIsSeen(logs: seq<Log>, key: Key)
    requires key.index in RunOf(logs, key.block)
    ensures key in Keys(logs)
  {
    RunExactly(logs, key);
    var i :| 0 <= i < |logs| && KeyOf(logs[i]) == key;
    assert logs[i] in logs;
  }

  predicate Repeated(before: seq<Log>, key: Key) {
    exists i :: 0 <= i < |before| && KeyOf(before[i]) == key
  }

  lemma RepeatedIsSeen(logs: seq<Log>, key: Key)
    ensures Repeated(logs, key) <==> key in Keys(logs)
  {
    if key in Keys(logs) {
      var l :| l in logs && KeyOf(l) == key;
      var i :| 0 <= i < |logs| && logs[i] == l;
    }
    if Repeated(logs, key) {
      var i :| 0 <= i < |logs| && KeyOf(logs[i]) == key;
      assert logs[i] in logs;
    }
  }

  /** For a history free of returns, adding a log keeps it so when the log is new or in the last run. */
  lemma NoReturnStep(before: seq<Log>, l: Log)
    ensures NoReturn(before + [l]) <==>
      NoReturn(before) && (KeyOf(l) in Keys(before) ==> l.index in RunOf(before, l.block))
  {
    hide Keys, RunOf, NoReturn;
    RepeatedIsSeen(before, KeyOf(l));
    if NoReturn(before + [l]) {
      PrefixNoReturn(before, l);
      if Repeated(before, KeyOf(l)) {
        LastIsInRun(before, l);
      }
    }
    if NoReturn(before) && (Repeated(before, KeyOf(l)) ==> l.index in RunOf(before, l.block)) {
      StillNoReturn(before, l);
    }
  }

  lemma PrefixNoReturn(before: seq<Log>, l: Log)
    requires NoReturn(before + [l])
    ensures NoReturn(before)
  {
    var logs := before + [l];
    forall i, j, k | 0 <= i < j < k < |before| && KeyOf(before[i]) == KeyOf(before[k])
      ensures before[j].block == before[k].block
    {
      assert KeyOf(logs[i]) == KeyOf(logs[k]) && logs[j].block == before[j].block;
    }
  }

  lemma LastIsInRun(before: seq<Log>, l: Log)
    requires NoReturn(before + [l]) && Repeated(before, KeyOf(l))
    ensures l.index in RunOf(before, l.block)
  {
    hide RunOf;
    var logs, n := before + [l], |before|;
    RunExactly(before, KeyOf(l));
    var i :| 0 <= i < n && KeyOf(before[i]) == KeyOf(l);
    forall j | i < j < n ensures before[j].block == l.block {
      assert KeyOf(logs[i]) == KeyOf(logs[n]) && logs[j].block == before[j].block;
    }
  }

  lemma StillNoReturn(before: seq<Log>, l: Log)
    requires NoReturn(before) && (Repeated(before, KeyOf(l)) ==> l.index in RunOf(before, l.block))
    ensures NoReturn(before + [l])
  {
    hide RunOf;
    var logs, n := before + [l], |before|;
    RunExactly(before, KeyOf(l));
    forall i, j, k | 0 <= i < j < k < |logs| && KeyOf(logs[i]) == KeyOf(logs[k])
      ensures logs[j].block == logs[k].block
    {
      assert KeyOf(before[i]) == KeyOf(logs[i]) && before[j] == logs[j];
      if k < n {
        assert KeyOf(before[k]) == KeyOf(logs[k]);
      } else {
        var r :| 0 <= r < n && KeyOf(before[r]) == KeyOf(l) && forall q :: r < q < n ==> before[q].block == l.block;
        assert j < r ==> before[j].block == before[r].block;
      }
    }
  }

  lemma NothingReturns()
    ensures NoReturn([])
  {}

  lemma {:induction false} NeverFewer(logs: seq<Log>)
    ensures |FirstTimes(logs)| <= |OneBlock(logs)|
    ensures |FirstTimes(logs)| == |OneBlock(logs)| <==> NoReturn(logs)
    ensures NoReturn(logs) ==> FirstTimes(logs) == OneBlock(logs)
  {
    hide RunOf, Keys, NoReturn;
    if logs == [] {
      NothingReturns();
    } else {
      var before, key := logs[..|logs| - 1], KeyOf(logs[|logs| - 1]);
      NeverFewer(before);
      assert before + [logs[|logs| - 1]] == logs;
      NoReturnStep(before, logs[|logs| - 1]);
      if key.index in RunOf(before, key.block) {
        RunIsSeen(before, key);
      }
    }
  }

  /** One block of memory does what unbounded memory does exactly when no log returns. */
  lemma OneBlockRefinesMemory(logs: seq<Log>)
    ensures OneBlock(logs) == FirstTimes(logs) <==> NoReturn(logs)
  {
    NeverFewer(logs);
  }

  /** In particular when logs come in block order, repeated or not. */
  lemma OrderedRefinesMemory(logs: seq<Log>)
    requires Ordered(logs)
    ensures OneBlock(logs) == FirstTimes(logs)
  {
    OneBlockRefinesMemory(logs);
    forall i, j, k | 0 <= i < j < k < |logs| && KeyOf(logs[i]) == KeyOf(logs[k])
      ensures logs[j].block == logs[k].block
    {
      assert logs[i].block <= logs[j].block <= logs[k].block;
    }
  }

  /** A late log of an earlier block clears the memory, and a repeat then passes. */
  lemma ReturnIsSentTwice(a: Log, b: Log)
    requires a.block != b.block
    ensures OneBlock([a, b, a]) == [a, b, a] && FirstTimes([a, b, a]) == [a, b]
  {
    hide OneBlock, FirstTimes, Keys, RunOf;
    SendAll3(a, b, a);
    RunsOfTwo(a, b);
  }

  lemma RunsOfTwo(a: Log, b: Log)
    requires a.block != b.block
    ensures RunOf([], a.block) == RunOf([a], b.block) == RunOf([a, b], a.block) == {}
    ensures Keys([]) == {} && Keys([a]) == {KeyOf(a)} && KeyOf(a) in Keys([a, b])
  {
    assert a in [a, b];
  }

  lemma SendAll3(a: Log, b: Log, c: Log)
    ensures OneBlock([a, b, c]) ==
      (if a.index in RunOf([], a.block) then [] else [a])
      + (if b.index in RunOf([a], b.block) then [] else [b])
      + (if c.index in RunOf([a, b], c.block) then [] else [c])
    ensures FirstTimes([a, b, c]) ==
      (if KeyOf(a) in Keys([]) then [] else [a])
      + (if KeyOf(b) in Keys([a]) then [] else [b])
      + (if KeyOf(c) in Keys([a, b]) then [] else [c])
  {
    hide RunOf, Keys;
    assert [a, b, c][..2] == [a, b] && [a, b][..1] == [a] && [a][..0] == [];
    assert OneBlock([a]) == OneBlock([]) + if a.index in RunOf([], a.block) then [] else [a];
    assert OneBlock([a, b]) == OneBlock([a]) + if b.index in RunOf([a], b.block) then [] else [b];
    assert FirstTimes([a]) == FirstTimes([]) + if KeyOf(a) in Keys([]) then [] else [a];
    assert FirstTimes([a, b]) == FirstTimes([a]) + if KeyOf(b) in Keys([a]) then [] else [b];
  }

  lemma FirstTimesStep(logs: seq<Log>, l: Log)
    ensures FirstTimes(logs + [l]) == if KeyOf(l) in Keys(logs) then FirstTimes(logs) else FirstTimes(logs) + [l]
  {
    assert (logs + [l])[..|logs|] == logs;
  }

  // ---- the loop over received logs

  function Highest(logs: seq<Log>): nat {
    if logs == [] then 0 else
      var h, b := Highest(logs[..|logs| - 1]), logs[|logs| - 1].block;
      if h < b then b else h
  }

  lemma {:induction false} HighestIsMaximum(logs: seq<Log>)
    ensures forall l :: l in logs ==> l.block <= Highest(logs)
    ensures logs != [] ==> exists l :: l in logs && l.block == Highest(logs)
  {
    if logs != [] {
      var before, last := logs[..|logs| - 1], logs[|logs| - 1];
      HighestIsMaximum(before);
      assert logs == before + [last];
      assert last in logs && forall l :: l in before ==> l in logs;
    }
  }

  lemma RunBelowHighest(logs: seq<Log>, block: nat)
    ensures RunOf(logs, block) != {} ==> block <= Highest(logs)
  {
    HighestIsMaximum(logs);
  }

  lemma LiveStep(logs: seq<Log>, l: Log)
    ensures Live(logs + [l]) == if l.removed then Live(logs) else Live(logs) + [l]
  {
    assert (logs + [l])[..|logs|] == logs;
  }

  lemma SendStep(logs: seq<Log>, l: Log)
    ensures OneBlock(logs + [l]) == if l.index in RunOf(logs, l.block) then OneBlock(logs) else OneBlock(logs) + [l]
    ensures Highest(logs + [l]) == if Highest(logs) < l.block then l.block else Highest(logs)
  {
    hide RunOf;
    assert (logs + [l])[..|logs|] == logs;
  }

  lemma RunStep(logs: seq<Log>, l: Log)
    ensures RunOf(logs + [l], l.block) == RunOf(logs, l.block) + {l.index}
    ensures logs == [] || logs[|logs| - 1].block != l.block ==> RunOf(logs, l.block) == {}
  {
    assert (logs + [l])[..|logs|] == logs;
  }

  datatype Memory = Memory(highest: nat, cursor: nat, seen: set<nat>, latest: nat, queue: seq<Log>)

  /** The cursor is the highest block received, whatever the order, and the queue holds what the last
      block's memory lets through. */
  ghost predicate Remembers(m: Memory, live: seq<Log>, start: nat) {
    && m.highest == Highest(live)
    && m.cursor == (if Highest(live) == 0 then start else Highest(live))
    && m.latest == (if live == [] then 0 else live[|live| - 1].block)
    && m.seen == RunOf(live, m.latest)
    && m.queue == OneBlock(live)
  }

  lemma SkipRepeat(m: Memory, live: seq<Log>, start: nat, l: Log)
    requires Remembers(m, live, start) && l.block == m.latest && l.index in m.seen
    ensures Remembers(m, live + [l], start)
  {
    SendStep(live, l);
    RunStep(live, l);
    RunBelowHighest(live, l.block);
    assert m.seen + {l.index} == m.seen;
    hide RunOf, OneBlock, Highest;
    assert live != [];
  }

  lemma AddNew(m: Memory, live: seq<Log>, start: nat, l: Log, seen: set<nat>)
    requires Remembers(m, live, start)
    requires seen == (if m.latest == l.block then m.seen else {}) && l.index !in seen
    ensures var higher := m.highest < l.block;
            Remembers(Memory(if higher then l.block else m.highest, if higher then l.block else m.cursor,
              seen + {l.index}, l.block, m.queue + [l]), live + [l], start)
  {
    SendStep(live, l);
    RunStep(live, l);
    assert live == [] ==> RunOf(live, l.block) == {};
    hide RunOf, OneBlock, Highest;
    assert seen == RunOf(live, l.block);
  }

  lemma Shown(m: Memory, live: seq<Log>, start: nat)
    requires Remembers(m, live, start)
    ensures m.queue == OneBlock(live)
    ensures m.cursor == if Highest(live) == 0 then start else Highest(live)
  {}

  class Connector {
    var lastBlockSeen: nat
    var logsSeen: set<nat>
    var lastBlockEmitted: nat
    var cursor: nat                 // the Redis key
    var queue: seq<Log>             // what was sent downstream
    ghost var received: seq<Log>
    ghost const start: nat          // the cursor found at start-up

    ghost predicate Valid()
      reads this
    {
      Remembers(Memory(lastBlockSeen, cursor, logsSeen, lastBlockEmitted, queue), Live(received), start)
    }

    constructor (stored: nat)
      ensures Valid() && received == [] && start == stored
    {
      lastBlockSeen, logsSeen, lastBlockEmitted, cursor, queue := 0, {}, 0, stored, [];
      received, start := [], stored;
    }

    /** What is done with a log before it is sent, the writing of the cursor included. */
    method Note(l: Log) returns (due: bool)
      requires Valid()
      modifies this
      ensures received == old(received) + [l] && queue == old(queue)
      ensures due <==> OneBlock(Live(received)) == old(queue) + [l]
      ensures !due ==> OneBlock(Live(received)) == old(queue)
      ensures cursor == if Highest(Live(received)) == 0 then start else Highest(Live(received))
      ensures Remembers(Memory(lastBlockSeen, cursor, logsSeen, lastBlockEmitted, if due then queue + [l] else queue),
        Live(received), start)
    {
      hide Live, Remembers, OneBlock, Highest;
      ghost var live := Live(received);
      ghost var m := Memory(lastBlockSeen, cursor, logsSeen, lastBlockEmitted, queue);
      LiveStep(received, l);
      received := received + [l];
      if l.removed {
        Shown(m, live, start);
        return false;
      }
      if lastBlockEmitted != l.block {
        lastBlockEmitted := l.block;
        logsSeen := {};
      }
      if l.index in logsSeen {
        SkipRepeat(m, live, start, l);
        Shown(m, live + [l], start);
        return false;
      }
      AddNew(m, live, start, l, logsSeen);
      logsSeen := logsSeen + {l.index};
      if lastBlockSeen < l.block {
        cursor := l.block;
        lastBlockSeen := l.block;
      }
      Shown(Memory(lastBlockSeen, cursor, logsSeen, lastBlockEmitted, queue + [l]), live + [l], start);
      return true;
    }

    method Receive(l: Log)
      requires Valid()
      modifies this
      ensures Valid() && received == old(received) + [l]
      ensures queue == OneBlock(Live(received))
      ensures cursor == if Highest(Live(received)) == 0 then start else Highest(Live(received))
    {
      hide Live, Remembers, OneBlock, Highest;
      var due := Note(l);
      if due {
        queue := queue + [l];
      }
    }

    method ReceiveAll(logs: seq<Log>)
      requires Valid()
      modifies this
      ensures Valid() && received == old(received) + logs
      ensures queue == OneBlock(Live(received))
      ensures cursor == if Highest(Live(received)) == 0 then start else Highest(Live(received))
    {
      hide Live, Remembers, OneBlock, Highest;
      Shown(Memory(lastBlockSeen, cursor, logsSeen, lastBlockEmitted, queue), Live(received), start);
      for i := 0 to |logs|
        invariant Valid() && received == old(received) + logs[..i]
        invariant queue == OneBlock(Live(received))
        invariant cursor == if Highest(Live(received)) == 0 then start else Highest(Live(received))
      {
        assert logs[..i + 1] == logs[..i] + [logs[i]];
        Receive(logs[i]);
      }
      assert logs[..|logs|] == logs;
    }
  }

  // ---- restarting from the cursor

  ghost predicate Fresh(chain: seq<Log>) {
    && (forall i, j :: 0 <= i < j < |chain| ==> KeyOf(chain[i]) != KeyOf(chain[j]))
    && (forall l :: l in chain ==> !l.removed)
  }

  /** The cursor is written before the log is sent; a crash may fall in between. It is the block of the last
      log noted, or what was stored before. */
  function CursorAt(stored: nat, chain: seq<Log>, sent: nat, written: bool): nat
    requires sent <= |chain| && (written ==> sent < |chain|)
  {
    if written then chain[sent].block else if sent > 0 then chain[sent - 1].block else stored
  }

  /** Everything sent by a run that crashes after `sent` logs and the run that takes over at the block
      after the cursor. */
  function AcrossCrash(stored: nat, chain: seq<Log>, sent: nat, written: bool, last: nat): seq<Log>
    requires sent <= |chain| && (written ==> sent < |chain|)
  {
    OneBlock(Live(chain[..sent])) + OneBlock(Live(Between(chain, CursorAt(stored, chain, sent, written) + 1, last)))
  }

  lemma CursorNoted(stored: nat, chain: seq<Log>, sent: nat, written: bool)
    requires Fresh(chain) && Ordered(chain) && forall l :: l in chain ==> stored < l.block
    requires sent <= |chain| && (written ==> sent < |chain|)
    ensures var noted := chain[..if written then sent + 1 else sent];
            CursorAt(stored, chain, sent, written) == if Highest(Live(noted)) == 0 then stored else Highest(Live(noted))
  {
    hide Highest, Live;
    var noted := chain[..if written then sent + 1 else sent];
    assert noted == chain[0..|noted|];
    PartIsFresh(chain, 0, |noted|);
    LiveIsAll(noted);
    if noted == [] {
      NoneHighest();
    } else {
      HighestOfOrdered(noted);
      assert noted[|noted| - 1] in chain;
    }
  }

  lemma NoneHighest()
    ensures Highest([]) == 0
  {}

  /** The service run on a chain's logs above the stored cursor until it dies, after sending `sent` of them
      and possibly noting the next, and run again from the cursor it left. */
  method RunAcrossCrash(stored: nat, chain: seq<Log>, sent: nat, written: bool, last: nat) returns (queue: seq<Log>)
    requires Fresh(chain) && Ordered(chain)
    requires forall l :: l in chain ==> stored < l.block <= last
    requires sent <= |chain| && (written ==> sent < |chain|)
    ensures queue == AcrossCrash(stored, chain, sent, written, last)
    ensures queue == chain[..sent] + chain[Reach(chain, CursorAt(stored, chain, sent, written))..]
  {
    hide *;
    var connector := new Connector(stored);
    connector.ReceiveAll(chain[..sent]);
    assert [] + chain[..sent] == chain[..sent];
    if written {
      var due := connector.Note(chain[sent]);
      assert chain[..sent] + [chain[sent]] == chain[..sent + 1];
    }
    CursorNoted(stored, chain, sent, written);
    var missed := Between(chain, connector.cursor + 1, last);
    var next := new Connector(connector.cursor);
    next.ReceiveAll(missed);
    assert [] + missed == missed;
    AcrossBoth(stored, chain, sent, written, last);
    CrashLosesRestOfBlock(stored, chain, sent, written, last);
    return connector.queue + next.queue;
  }

  lemma {:induction false} LiveIsAll(logs: seq<Log>)
    requires forall l :: l in logs ==> !l.removed
    ensures Live(logs) == logs
  {
    if logs != [] {
      hide Live;
      var before, l := logs[..|logs| - 1], logs[|logs| - 1];
      assert logs == before + [l] && l in logs;
      LiveIsAll(before);
      LiveStep(before, l);
    }
  }

  lemma {:induction false} FreshIsSent(logs: seq<Log>)
    requires Fresh(logs) && Ordered(logs)
    ensures OneBlock(Live(logs)) == logs
  {
    LiveIsAll(logs);
    OrderedRefinesMemory(logs);
    FirstTimesOfFresh(logs);
  }

  lemma {:induction false} FirstTimesOfFresh(logs: seq<Log>)
    requires Fresh(logs)
    ensures FirstTimes(logs) == logs
  {
    if logs != [] {
      hide FirstTimes, Keys;
      var before, l := logs[..|logs| - 1], logs[|logs| - 1];
      assert logs == before + [l];
      PartOfFresh(before, l);
      FirstTimesOfFresh(before);
      FirstTimesStep(before, l);
      RepeatedIsSeen(before, KeyOf(l));
    }
  }

  lemma PartOfFresh(before: seq<Log>, l: Log)
    requires Fresh(before + [l])
    ensures Fresh(before) && !Repeated(before, KeyOf(l))
  {
    var logs := before + [l];
    forall i | 0 <= i < |before| ensures before[i] == logs[i] && KeyOf(before[i]) != KeyOf(l) {
      assert KeyOf(logs[i]) != KeyOf(logs[|before|]);
    }
    forall i, j | 0 <= i < j < |before| ensures KeyOf(before[i]) != KeyOf(before[j]) {
      assert KeyOf(logs[i]) != KeyOf(logs[j]);
    }
    forall k | k in before ensures k in logs {}
  }

  lemma {:induction false} BetweenIsPart(chain: seq<Log>, from: nat, to: nat)
    requires Fresh(chain) && Ordered(chain)
    ensures Fresh(Between(chain, from, to)) && Ordered(Between(chain, from, to))
    ensures forall l :: l in Between(chain, from, to) ==> l in chain
  {
    if chain != [] {
      hide Fresh, Ordered;
      var head, tail := chain[0], chain[1..];
      assert chain == [head] + tail && chain[1..|chain|] == tail;
      PartIsFresh(chain, 1, |chain|);
      BetweenIsPart(tail, from, to);
      HeadStaysFirst(chain, Between(tail, from, to));
    }
  }

  lemma HeadStaysFirst(chain: seq<Log>, part: seq<Log>)
    requires chain != [] && Fresh(chain) && Ordered(chain) && Fresh(part) && Ordered(part)
    requires forall l :: l in part ==> l in chain[1..]
    ensures Fresh([chain[0]] + part) && Ordered([chain[0]] + part)
  {
    var all := [chain[0]] + part;
    forall j | 0 < j < |all| ensures KeyOf(all[j]) != KeyOf(all[0]) && all[0].block <= all[j].block && !all[j].removed {
      assert all[j] == part[j - 1] && part[j - 1] in part;
      var k :| 0 <= k < |chain| - 1 && chain[1..][k] == all[j];
      assert KeyOf(chain[0]) != KeyOf(chain[k + 1]);
      assert chain[k + 1] in chain;
    }
    assert chain[0] in chain;
    forall i, j | 0 < i < j < |all| ensures KeyOf(all[i]) != KeyOf(all[j]) && all[i].block <= all[j].block {
      assert KeyOf(part[i - 1]) != KeyOf(part[j - 1]);
    }
  }

  /** Catching up with a faithful node sends each log of the chain in the range once, in order. */
  lemma CatchUpSendsChain(answers: seq<Answer>, from: nat, amount: nat, chain: seq<Log>)
    requires answers != [] && Tiled(answers, from, amount) && Faithful(answers, chain)
    requires Ordered(chain) && Fresh(chain)
    ensures from < End(answers, from)
    ensures OneBlock(Live(Forwarded(answers))) == Between(chain, from, End(answers, from) - 1)
  {
    hide *;
    ForwardedIsChain(answers, from, amount, chain);
    BetweenIsPart(chain, from, End(answers, from) - 1);
    FreshIsSent(Between(chain, from, End(answers, from) - 1));
  }

  /** Of an ordered chain, the logs above a block are a suffix. */
  lemma {:induction false} BetweenIsSuffix(chain: seq<Log>, from: nat, last: nat, n: nat)
    requires n <= |chain|
    requires forall i :: 0 <= i < n ==> chain[i].block < from
    requires forall i :: n <= i < |chain| ==> from <= chain[i].block <= last
    ensures Between(chain, from, last) == chain[n..]
  {
    if chain != [] {
      if n > 0 {
        BetweenIsSuffix(chain[1..], from, last, n - 1);
        assert chain[1..][n - 1..] == chain[n..];
      } else {
        BetweenIsSuffix(chain[1..], from, last, 0);
      }
    }
  }

  lemma {:induction false} HighestOfOrdered(logs: seq<Log>)
    requires Ordered(logs) && logs != []
    ensures Highest(logs) == logs[|logs| - 1].block
  {
    if |logs| > 1 {
      HighestOfOrdered(logs[..|logs| - 1]);
    }
  }

  /** How many logs are at or below a block. */
  function Reach(chain: seq<Log>, block: nat): (n: nat)
    requires Ordered(chain)
    ensures n <= |chain|
    ensures forall i :: 0 <= i < n ==> chain[i].block <= block
    ensures forall i :: n <= i < |chain| ==> chain[i].block > block
  {
    if chain == [] || chain[0].block > block then 0 else 1 + Reach(chain[1..], block)
  }

  /** A crash loses exactly the logs of the cursor's block that were not yet sent. */
  lemma CrashLosesRestOfBlock(stored: nat, chain: seq<Log>, sent: nat, written: bool, last: nat)
    requires Fresh(chain) && Ordered(chain)
    requires forall l :: l in chain ==> stored < l.block <= last
    requires sent <= |chain| && (written ==> sent < |chain|)
    ensures var resume := Reach(chain, CursorAt(stored, chain, sent, written));
            sent <= resume && AcrossCrash(stored, chain, sent, written, last) == chain[..sent] + chain[resume..]
  {
    hide *;
    AcrossBoth(stored, chain, sent, written, last);
    var resume := Reach(chain, CursorAt(stored, chain, sent, written));
    ResumePoint(stored, chain, sent, written, last);
    PartIsFresh(chain, 0, sent);
    PartIsFresh(chain, resume, |chain|);
    assert chain[0..sent] == chain[..sent] && chain[resume..|chain|] == chain[resume..];
    FreshIsSent(chain[..sent]);
    FreshIsSent(chain[resume..]);
  }

  lemma AcrossBoth(stored: nat, chain: seq<Log>, sent: nat, written: bool, last: nat)
    requires sent <= |chain| && (written ==> sent < |chain|)
    ensures AcrossCrash(stored, chain, sent, written, last)
      == OneBlock(Live(chain[..sent])) + OneBlock(Live(Between(chain, CursorAt(stored, chain, sent, written) + 1, last)))
  {}

  lemma ResumePoint(stored: nat, chain: seq<Log>, sent: nat, written: bool, last: nat)
    requires Ordered(chain)
    requires forall l :: l in chain ==> stored < l.block <= last
    requires sent <= |chain| && (written ==> sent < |chain|)
    ensures var cursor := CursorAt(stored, chain, sent, written);
            var resume := Reach(chain, cursor);
            sent <= resume && Between(chain, cursor + 1, last) == chain[resume..]
  {
    hide Between, Reach;
    var cursor := CursorAt(stored, chain, sent, written);
    var resume := Reach(chain, cursor);
    forall i | resume <= i < |chain| ensures cursor + 1 <= chain[i].block <= last {
      assert chain[i] in chain;
    }
    BetweenIsSuffix(chain, cursor + 1, last, resume);
  }

  lemma PartIsFresh(chain: seq<Log>, i: nat, j: nat)
    requires i <= j <= |chain| && Fresh(chain) && Ordered(chain)
    ensures Fresh(chain[i..j]) && Ordered(chain[i..j])
  {
    var part := chain[i..j];
    forall a, b | 0 <= a < b < |part| ensures KeyOf(part[a]) != KeyOf(part[b]) {
      assert KeyOf(chain[i + a]) != KeyOf(chain[i + b]);
    }
    forall l | l in part ensures l in chain {}
  }

  /** So nothing is lost if and only if the next log is of a block above the cursor. */
  lemma CrashIsSafeExactly(stored: nat, chain: seq<Log>, sent: nat, written: bool, last: nat)
    requires Fresh(chain) && Ordered(chain)
    requires forall l :: l in chain ==> stored < l.block <= last
    requires sent <= |chain| && (written ==> sent < |chain|)
    ensures AcrossCrash(stored, chain, sent, written, last) == chain <==>
      sent == |chain| || chain[sent].block > CursorAt(stored, chain, sent, written)
  {
    hide AcrossCrash, CursorAt, Fresh;
    CrashLosesRestOfBlock(stored, chain, sent, written, last);
    var resume := Reach(chain, CursorAt(stored, chain, sent, written));
    assert chain[..sent] + chain[sent..] == chain;
    if sent < |chain| && resume == sent {
      assert chain[sent].block > CursorAt(stored, chain, sent, written);
    }
    assert |chain[..sent] + chain[resume..]| == sent + |chain| - resume;
  }
}
