/** At-least-once delivery with retries and dead letters (lib/queue/queue.go): the broker, the Redis
    retry counters and consumers that may crash between any two effects. */
module Queue {
  type Id = nat
  type Process = nat
  type Body = nat

  /** `body` gives the content hash each message's retry counter is kept under. */
  datatype Config = Config(deadLetter: bool, retries: int, body: map<Id, Body>)

  /** How far a consumer has got with a delivery. */
  datatype Stage = Buffered | Counted(n: nat) | Running | Returned
  datatype Flight = Flight(process: Process, stage: Stage)

  /** What has happened to a message: idleCrashes counts consumer crashes while it was in flight
      but its handler was not running, handlerCrashes those during its handler. */
  datatype History = History(deliveries: nat, starts: nat, finishes: nat, idleCrashes: nat, handlerCrashes: nat)

  datatype State = State(ready: set<Id>, inflight: map<Id, Flight>, acked: set<Id>, dead: set<Id>,
                         cleaning: map<Id, Process>, counters: map<Body, nat>, history: map<Id, History>)

  datatype Event =
    | Deliver(id: Id, process: Process)
    | Incr(id: Id)
    | Nack(id: Id)
    | Start(id: Id)
    | Return(id: Id)
    | Ack(id: Id)
    | Clean(id: Id)
    | Crash(process: Process)
    | Expire(body: Body)

  function Count(s: State, b: Body): nat {
    if b in s.counters then s.counters[b] else 0
  }

  function Init(c: Config): State {
    State(c.body.Keys, map[], {}, {}, map[], map[], map id | id in c.body :: History(0, 0, 0, 0, 0))
  }

  predicate At(s: State, id: Id, stage: Stage) {
    id in s.inflight && s.inflight[id].stage == stage
  }

  predicate Enabled(c: Config, s: State, e: Event) {
    match e
    case Deliver(id, _) => id in s.ready && id in s.history
    case Incr(id) => c.deadLetter && At(s, id, Buffered) && id in c.body
    case Nack(id) => id in s.inflight && s.inflight[id].stage.Counted? && s.inflight[id].stage.n >= c.retries
    case Start(id) =>
      && id in s.inflight && id in s.history
      && (if c.deadLetter then s.inflight[id].stage.Counted? && s.inflight[id].stage.n < c.retries
          else s.inflight[id].stage.Buffered?)
    case Return(id) => At(s, id, Running) && id in s.history
    case Ack(id) => At(s, id, Returned)
    case Clean(id) => id in s.cleaning && id in c.body
    case Crash(_) => true
    case Expire(_) => true
  }

  function Move(s: State, id: Id, stage: Stage): State
    requires id in s.inflight
  {
    s.(inflight := s.inflight[id := s.inflight[id].(stage := stage)])
  }

  function Crashed(h: History, stage: Stage): History {
    if stage.Running? then h.(handlerCrashes := h.handlerCrashes + 1) else h.(idleCrashes := h.idleCrashes + 1)
  }

  /** The messages a process holds. */
  function Held(s: State, p: Process): set<Id> {
    set id | id in s.inflight && s.inflight[id].process == p
  }

  function Step(c: Config, s: State, e: Event): State
    requires Enabled(c, s, e)
  {
    match e
    case Deliver(id, p) =>
      var h := s.history[id];
      s.(ready := s.ready - {id}, inflight := s.inflight[id := Flight(p, Buffered)],
         history := s.history[id := h.(deliveries := h.deliveries + 1)])
    case Incr(id) =>
      var n := Count(s, c.body[id]) + 1;
      Move(s, id, Counted(n)).(counters := s.counters[c.body[id] := n])
    case Nack(id) =>
      s.(inflight := s.inflight - {id}, dead := s.dead + {id}, cleaning := s.cleaning[id := s.inflight[id].process])
    case Start(id) =>
      var h := s.history[id];
      Move(s, id, Running).(history := s.history[id := h.(starts := h.starts + 1)])
    case Return(id) =>
      var h := s.history[id];
      Move(s, id, Returned).(history := s.history[id := h.(finishes := h.finishes + 1)])
    case Ack(id) =>
      s.(inflight := s.inflight - {id}, acked := s.acked + {id},
         cleaning := if c.deadLetter then s.cleaning[id := s.inflight[id].process] else s.cleaning)
    case Clean(id) =>
      s.(counters := s.counters - {c.body[id]}, cleaning := s.cleaning - {id})
    case Crash(p) =>
      s.(ready := s.ready + Held(s, p), inflight := s.inflight - Held(s, p),
         cleaning := map id | id in s.cleaning && s.cleaning[id] != p :: s.cleaning[id],
         history := map id | id in s.history ::
           if id in Held(s, p) then Crashed(s.history[id], s.inflight[id].stage) else s.history[id])
    case Expire(b) => s.(counters := s.counters - {b})
  }

  // ---- runs

  ghost predicate IsRun(c: Config, s: State, es: seq<Event>, t: State)
    decreases |es|
  {
    if es == [] then s == t else
      var last := |es| - 1;
      exists m :: IsRun(c, s, es[..last], m) && Enabled(c, m, es[last]) && Step(c, m, es[last]) == t
  }

  /** No message is lost or duplicated: each is in exactly one of the broker's places. */
  ghost predicate Partitioned(c: Config, s: State) {
    && s.ready + s.inflight.Keys + s.acked + s.dead == c.body.Keys
    && s.ready !! s.inflight.Keys && s.ready !! s.acked && s.ready !! s.dead
    && s.inflight.Keys !! s.acked && s.inflight.Keys !! s.dead && s.acked !! s.dead
    && s.history.Keys == c.body.Keys
    && s.cleaning.Keys <= s.acked + s.dead
  }

  /** The acknowledged, and those about to be, had their handler return. */
  ghost predicate AckedHandled(s: State) {
    forall id :: id in s.history && (id in s.acked || At(s, id, Returned)) ==> s.history[id].finishes > 0
  }

  lemma StepKeepsPartition(c: Config, s: State, e: Event)
    requires Partitioned(c, s) && Enabled(c, s, e)
    ensures Partitioned(c, Step(c, s, e))
  {}

  lemma StepKeepsHandled(c: Config, s: State, e: Event)
    requires Partitioned(c, s) && AckedHandled(s) && Enabled(c, s, e)
    ensures AckedHandled(Step(c, s, e))
  {}

  /** On every run, whatever crashes or expires: messages are conserved, and one is acknowledged
      only after its handler returned. */
  lemma {:induction false} Conserved(c: Config, es: seq<Event>, t: State)
    requires IsRun(c, Init(c), es, t)
    ensures Partitioned(c, t) && AckedHandled(t)
    decreases |es|
  {
    if es != [] {
      var last := |es| - 1;
      var m :| IsRun(c, Init(c), es[..last], m) && Enabled(c, m, es[last]) && Step(c, m, es[last]) == t;
      Conserved(c, es[..last], m);
      StepKeepsPartition(c, m, es[last]);
      StepKeepsHandled(c, m, es[last]);
    }
  }

  // ---- the retry limit

  ghost predicate NoExpiry(es: seq<Event>) {
    forall i :: 0 <= i < |es| ==> !es[i].Expire?
  }

  ghost predicate DistinctBodies(c: Config) {
    forall i, j :: i in c.body && j in c.body && i != j ==> c.body[i] != c.body[j]
  }

  /** No other message has the body, and so the counter, of this one. */
  ghost predicate OwnBody(c: Config, id: Id)
    requires id in c.body
  {
    forall j :: j in c.body && j != id ==> c.body[j] != c.body[id]
  }

  /** The starts of a handler that the limit allows. */
  function Limit(c: Config): (n: nat)
    ensures c.retries >= 1 ==> n == c.retries - 1
    ensures c.retries <= 1 ==> n == 0
  {
    if c.retries > 1 then c.retries - 1 else 0
  }

  /** What holds of one message between any two events. */
  ghost predicate Tracked(c: Config, s: State, id: Id)
    requires id in c.body && id in s.history
  {
    var h, n := s.history[id], Count(s, c.body[id]);
    && h.starts <= Limit(c)
    && h.handlerCrashes <= h.starts
    && h.deliveries == h.idleCrashes + h.handlerCrashes + (if id in s.ready then 0 else 1)
    && (id in s.ready ==> h.starts <= n <= h.deliveries)
    && (id in s.dead ==> h.deliveries >= c.retries)
    && (id in s.inflight ==>
          match s.inflight[id].stage
          case Buffered => h.starts <= n < h.deliveries
          case Counted(k) => k == n && h.starts < n <= h.deliveries
          case Running => h.starts <= n <= h.deliveries && h.handlerCrashes < h.starts
          case Returned => h.starts <= n <= h.deliveries)
  }

  lemma StepKeepsOther(c: Config, s: State, e: Event, id: Id)
    requires Partitioned(c, s) && id in c.body && Tracked(c, s, id) && Enabled(c, s, e) && OwnBody(c, id)
    requires !e.Crash? && !e.Expire? && e.id != id
    ensures Partitioned(c, Step(c, s, e)) && Tracked(c, Step(c, s, e), id)
  {
    StepKeepsPartition(c, s, e);
    if e.id in c.body {
      assert c.body[e.id] != c.body[id];
    }
  }

  lemma StepKeepsOwn(c: Config, s: State, e: Event)
    requires !e.Crash? && !e.Expire? && e.id in c.body
    requires c.deadLetter && Partitioned(c, s) && Tracked(c, s, e.id) && Enabled(c, s, e)
    ensures Partitioned(c, Step(c, s, e)) && Tracked(c, Step(c, s, e), e.id)
  {
    StepKeepsPartition(c, s, e);
  }

  lemma CrashKeeps(c: Config, s: State, p: Process, id: Id)
    requires Partitioned(c, s) && id in c.body && Tracked(c, s, id)
    ensures Partitioned(c, Step(c, s, Crash(p))) && Tracked(c, Step(c, s, Crash(p)), id)
  {
    StepKeepsPartition(c, s, Crash(p));
  }

  lemma {:induction false} RunTracked(c: Config, es: seq<Event>, t: State, id: Id)
    requires c.deadLetter && id in c.body && OwnBody(c, id) && IsRun(c, Init(c), es, t)
    requires NoExpiry(es)
    ensures id in t.history && Tracked(c, t, id)
    decreases |es|
  {
    if es != [] {
      hide Tracked, OwnBody;
      var last := |es| - 1;
      var m :| IsRun(c, Init(c), es[..last], m) && Enabled(c, m, es[last]) && Step(c, m, es[last]) == t;
      RunTracked(c, es[..last], m, id);
      Conserved(c, es[..last], m);
      if es[last].Crash? {
        CrashKeeps(c, m, es[last].process, id);
      } else if es[last].id == id {
        StepKeepsOwn(c, m, es[last]);
      } else {
        StepKeepsOther(c, m, es[last], id);
      }
    }
  }

  /** What the retry limit promises of a message: its handler is started at most retries - 1 times; it
      is dead-lettered only after at least `retries` deliveries; and it is delivered at most once more
      than its consumers crash, where all but the crashes outside its handler are bounded. */
  ghost predicate WithinLimit(c: Config, t: State, id: Id) {
    && id in t.history
    && t.history[id].starts <= Limit(c)
    && (id in t.dead ==> t.history[id].deliveries >= c.retries)
    && t.history[id].deliveries <= t.history[id].idleCrashes + Limit(c) + 1
  }

  /** With dead letters on and no counter expiring, over every run, for a message with a body of its own. */
  lemma RetryLimit(c: Config, es: seq<Event>, t: State, id: Id)
    requires c.deadLetter && id in c.body && OwnBody(c, id) && IsRun(c, Init(c), es, t)
    requires NoExpiry(es)
    ensures WithinLimit(c, t, id)
  {
    RunTracked(c, es, t, id);
  }

  /** With at most one try no handler ever starts, whatever the bodies. */
  ghost predicate Unstarted(s: State, id: Id)
    requires id in s.history
  {
    var h := s.history[id];
    && h.starts == h.handlerCrashes == 0
    && h.deliveries == h.idleCrashes + (if id in s.ready then 0 else 1)
    && (id in s.inflight ==>
          s.inflight[id].stage.Buffered? || (s.inflight[id].stage.Counted? && s.inflight[id].stage.n >= 1))
  }

  lemma StepKeepsUnstarted(c: Config, s: State, e: Event, id: Id)
    requires c.deadLetter && c.retries <= 1 && Partitioned(c, s) && id in c.body && Unstarted(s, id) && Enabled(c, s, e)
    ensures Partitioned(c, Step(c, s, e)) && Unstarted(Step(c, s, e), id)
  {
    StepKeepsPartition(c, s, e);
  }

  lemma {:induction false} RunUnstarted(c: Config, es: seq<Event>, t: State, id: Id)
    requires c.deadLetter && c.retries <= 1 && id in c.body && IsRun(c, Init(c), es, t)
    ensures id in t.history && Unstarted(t, id)
    decreases |es|
  {
    if es != [] {
      hide Unstarted;
      var last := |es| - 1;
      var m :| IsRun(c, Init(c), es[..last], m) && Enabled(c, m, es[last]) && Step(c, m, es[last]) == t;
      RunUnstarted(c, es[..last], m, id);
      Conserved(c, es[..last], m);
      StepKeepsUnstarted(c, m, es[last], id);
    }
  }

  // ---- bounded work

  /** Steps left for a message if no consumer crashes. */
  function Work(s: State, id: Id): nat {
    if id in s.ready then 6
    else if id in s.inflight then
      match s.inflight[id].stage
      case Buffered => 5
      case Counted(_) => 4
      case Running => 3
      case Returned => 2
    else if id in s.cleaning then 1 else 0
  }

  function EventsOf(es: seq<Event>, id: Id): nat {
    if es == [] then 0 else
      var e := es[|es| - 1];
      EventsOf(es[..|es| - 1], id) + if !e.Crash? && !e.Expire? && e.id == id then 1 else 0
  }

  lemma StepWorks(c: Config, s: State, e: Event, id: Id)
    requires Partitioned(c, s) && Enabled(c, s, e) && id in c.body
    ensures var t := Step(c, s, e);
            && id in t.history
            && Work(t, id) + (if !e.Crash? && !e.Expire? && e.id == id then 1 else 0)
                 + 6 * (s.history[id].idleCrashes + s.history[id].handlerCrashes)
               <= Work(s, id) + 6 * (t.history[id].idleCrashes + t.history[id].handlerCrashes)
  {
    StepKeepsPartition(c, s, e);
  }

  /** Over every run the steps taken for a message are at most six, plus six for each of its crashes. */
  lemma {:induction false} WorkBounded(c: Config, es: seq<Event>, t: State, id: Id)
    requires IsRun(c, Init(c), es, t) && id in c.body
    ensures id in t.history
    ensures EventsOf(es, id) + Work(t, id) <= 6 * (1 + t.history[id].idleCrashes + t.history[id].handlerCrashes)
    decreases |es|
  {
    if es != [] {
      var last := |es| - 1;
      var m :| IsRun(c, Init(c), es[..last], m) && Enabled(c, m, es[last]) && Step(c, m, es[last]) == t;
      WorkBounded(c, es[..last], m, id);
      Conserved(c, es[..last], m);
      StepWorks(c, m, es[last], id);
    }
  }

  /** The counter is raised only with dead letters on. */
  lemma {:induction false} CountedMeansDeadLetter(c: Config, es: seq<Event>, t: State, id: Id)
    requires IsRun(c, Init(c), es, t)
    ensures id in t.inflight && t.inflight[id].stage.Counted? ==> c.deadLetter
    decreases |es|
  {
    if es != [] {
      var last := |es| - 1;
      var m :| IsRun(c, Init(c), es[..last], m) && Enabled(c, m, es[last]) && Step(c, m, es[last]) == t;
      CountedMeansDeadLetter(c, es[..last], m, id);
    }
  }

  /** A message that is neither acknowledged nor dead always has a step to take. */
  lemma NeverStuck(c: Config, es: seq<Event>, t: State, id: Id)
    requires IsRun(c, Init(c), es, t) && id in c.body && id !in t.acked && id !in t.dead
    ensures exists e :: Enabled(c, t, e) && !e.Crash? && !e.Expire? && e.id == id
  {
    Conserved(c, es, t);
    CountedMeansDeadLetter(c, es, t, id);
    if id in t.ready {
      assert Enabled(c, t, Deliver(id, 0));
    } else {
      match t.inflight[id].stage
      case Buffered => assert Enabled(c, t, if c.deadLetter then Incr(id) else Start(id));
      case Counted(n) => assert Enabled(c, t, if n >= c.retries then Nack(id) else Start(id));
      case Running => assert Enabled(c, t, Return(id));
      case Returned => assert Enabled(c, t, Ack(id));
    }
  }

  // ---- the consumer's loop body

  lemma Extend(c: Config, s: State, es: seq<Event>, m: State, e: Event)
    requires IsRun(c, s, es, m) && Enabled(c, m, e)
    ensures IsRun(c, s, es + [e], Step(c, m, e))
    ensures NoExpiry(es) && !e.Expire? ==> NoExpiry(es + [e])
  {
    assert (es + [e])[..|es|] == es;
  }

  /** One pass of the message loop without a crash: its effects are steps of the protocol, and they
      leave the message acknowledged, or dead-lettered when the counter has reached the limit. */
  method ProcessMessage(c: Config, s: State, id: Id) returns (t: State, ghost es: seq<Event>)
    requires Partitioned(c, s) && At(s, id, Buffered)
    ensures IsRun(c, s, es, t)
    ensures if c.deadLetter && Count(s, c.body[id]) + 1 >= c.retries then t.dead == s.dead + {id} && t.acked == s.acked
            else t.acked == s.acked + {id} && t.dead == s.dead
    ensures c.deadLetter ==> Count(t, c.body[id]) == 0
  {
    hide IsRun, NoExpiry;
    t, es := s, [];
    EmptyRun(c, s);
    if c.deadLetter {
      Extend(c, s, es, t, Incr(id));
      t, es := Step(c, t, Incr(id)), es + [Incr(id)];
      var retryCount := Count(t, c.body[id]);
      if retryCount >= c.retries {
        Extend(c, s, es, t, Nack(id));
        t, es := Step(c, t, Nack(id)), es + [Nack(id)];
        Extend(c, s, es, t, Clean(id));
        t, es := Step(c, t, Clean(id)), es + [Clean(id)];
        return;
      }
    }
    Extend(c, s, es, t, Start(id));
    t, es := Step(c, t, Start(id)), es + [Start(id)];
    Extend(c, s, es, t, Return(id));
    t, es := Step(c, t, Return(id)), es + [Return(id)];
    Extend(c, s, es, t, Ack(id));
    t, es := Step(c, t, Ack(id)), es + [Ack(id)];
    if c.deadLetter {
      Extend(c, s, es, t, Clean(id));
      t, es := Step(c, t, Clean(id)), es + [Clean(id)];
    }
  }

  // ---- when the retry limit holds

  ghost predicate Quiet(c: Config, es: seq<Event>, s: State) {
    IsRun(c, Init(c), es, s) && s.inflight == map[] && s.cleaning == map[]
  }

  /** A delivery whose handler starts. */
  lemma StartAttempt(c: Config, es: seq<Event>, s: State, id: Id) returns (es': seq<Event>, t: State)
    requires c.deadLetter && Quiet(c, es, s) && id in s.ready && id in c.body && id in s.history
    requires Count(s, c.body[id]) + 1 < c.retries
    ensures IsRun(c, Init(c), es', t) && (NoExpiry(es) ==> NoExpiry(es'))
    ensures t == s.(ready := s.ready - {id}, inflight := map[id := Flight(0, Running)],
                    counters := s.counters[c.body[id] := Count(s, c.body[id]) + 1],
                    history := s.history[id := s.history[id].(deliveries := s.history[id].deliveries + 1,
                                                              starts := s.history[id].starts + 1)])
  {
    hide IsRun, NoExpiry, Init;
    t, es' := s, es;
    Extend(c, Init(c), es', t, Deliver(id, 0));
    t, es' := Step(c, t, Deliver(id, 0)), es' + [Deliver(id, 0)];
    Extend(c, Init(c), es', t, Incr(id));
    t, es' := Step(c, t, Incr(id)), es' + [Incr(id)];
    Extend(c, Init(c), es', t, Start(id));
    t, es' := Step(c, t, Start(id)), es' + [Start(id)];
  }

  /** A delivery that finds its counter at the limit. */
  lemma DeadAttempt(c: Config, es: seq<Event>, s: State, id: Id) returns (es': seq<Event>, t: State)
    requires c.deadLetter && Quiet(c, es, s) && id in s.ready && id in c.body && id in s.history
    requires Count(s, c.body[id]) + 1 >= c.retries
    ensures Quiet(c, es', t) && (NoExpiry(es) ==> NoExpiry(es'))
    ensures t.ready == s.ready - {id} && t.dead == s.dead + {id} && Count(t, c.body[id]) == 0
    ensures t.history == s.history[id := s.history[id].(deliveries := s.history[id].deliveries + 1)]
  {
    hide IsRun, NoExpiry, Init;
    t, es' := s, es;
    Extend(c, Init(c), es', t, Deliver(id, 0));
    t, es' := Step(c, t, Deliver(id, 0)), es' + [Deliver(id, 0)];
    Extend(c, Init(c), es', t, Incr(id));
    t, es' := Step(c, t, Incr(id)), es' + [Incr(id)];
    Extend(c, Init(c), es', t, Nack(id));
    t, es' := Step(c, t, Nack(id)), es' + [Nack(id)];
    Extend(c, Init(c), es', t, Clean(id));
    t, es' := Step(c, t, Clean(id)), es' + [Clean(id)];
  }

  /** k deliveries that each crash in the handler. */
  lemma {:induction false} CrashRounds(c: Config, i: Id, k: nat) returns (es: seq<Event>, t: State)
    requires c.deadLetter && i in c.body && k < c.retries
    ensures Quiet(c, es, t) && NoExpiry(es)
    ensures t.ready == c.body.Keys && t.history.Keys == c.body.Keys && t.dead == {}
    ensures Count(t, c.body[i]) == k && t.history[i].starts == k
    ensures forall j :: j in c.body && j != i ==> t.history[j].deliveries == 0
  {
    hide IsRun, NoExpiry;
    if k == 0 {
      es, t := [], Init(c);
      EmptyRun(c, t);
    } else {
      es, t := CrashRounds(c, i, k - 1);
      es, t := StartAttempt(c, es, t, i);
      Extend(c, Init(c), es, t, Crash(0));
      es, t := es + [Crash(0)], Step(c, t, Crash(0));
    }
  }

  /** Two messages with one body share a counter: whatever the limit, the second can be dead-lettered
      on its first delivery, which resets the counter, so that the first message's handler starts once
      more than the limit allows. */
  lemma SharedBodyBreaksLimit(c: Config, i: Id, j: Id) returns (es: seq<Event>, t: State)
    requires c.deadLetter && c.retries >= 2
    requires i in c.body && j in c.body && i != j && c.body[i] == c.body[j]
    ensures IsRun(c, Init(c), es, t) && NoExpiry(es)
    ensures i in t.history && t.history[i].starts > Limit(c)
    ensures j in t.dead && j in t.history && t.history[j].deliveries < c.retries
  {
    hide IsRun, NoExpiry, Init;
    es, t := CrashRounds(c, i, c.retries - 1);
    es, t := DeadAttempt(c, es, t, j);
    es, t := StartAttempt(c, es, t, i);
  }

  ghost predicate LimitKept(c: Config, id: Id) {
    forall es, t :: IsRun(c, Init(c), es, t) && NoExpiry(es) ==> WithinLimit(c, t, id)
  }

  /** Every run keeps a message within the limit if and only if no other message has its body, or the
      limit lets no handler start at all. */
  lemma RetryLimitExactly(c: Config, id: Id)
    requires c.deadLetter && id in c.body
    ensures LimitKept(c, id) <==> OwnBody(c, id) || c.retries <= 1
  {
    if c.retries <= 1 {
      forall es, t | IsRun(c, Init(c), es, t) && NoExpiry(es) ensures WithinLimit(c, t, id) {
        RunUnstarted(c, es, t, id);
        Conserved(c, es, t);
      }
    } else if OwnBody(c, id) {
      forall es, t | IsRun(c, Init(c), es, t) && NoExpiry(es) ensures WithinLimit(c, t, id) {
        RetryLimit(c, es, t, id);
      }
    } else {
      var j :| j in c.body && j != id && c.body[j] == c.body[id];
      var es, t := SharedBodyBreaksLimit(c, id, j);
      assert !WithinLimit(c, t, id);
    }
  }

  /** So it is kept for all messages if and only if all bodies differ, or no handler can start. */
  lemma AllWithinLimitExactly(c: Config)
    requires c.deadLetter
    ensures (forall id :: id in c.body ==> LimitKept(c, id)) <==> DistinctBodies(c) || c.retries <= 1
  {
    hide LimitKept;
    forall id | id in c.body ensures LimitKept(c, id) <==> OwnBody(c, id) || c.retries <= 1 {
      RetryLimitExactly(c, id);
    }
    if forall id :: id in c.body ==> OwnBody(c, id) {
      assert DistinctBodies(c);
    }
  }

  /** If counters may expire, a message can pass any limit that lets a handler start. */
  lemma ExpiryBreaksLimit(c: Config, id: Id)
    requires c.deadLetter && id in c.body
    ensures (forall es, t :: IsRun(c, Init(c), es, t) ==> WithinLimit(c, t, id)) <==> c.retries <= 1
  {
    hide IsRun, NoExpiry, Init;
    if c.retries <= 1 {
      forall es, t | IsRun(c, Init(c), es, t) ensures WithinLimit(c, t, id) {
        RunUnstarted(c, es, t, id);
        Conserved(c, es, t);
      }
    } else {
      var es, t := CrashRounds(c, id, c.retries - 1);
      Extend(c, Init(c), es, t, Expire(c.body[id]));
      es, t := es + [Expire(c.body[id])], Step(c, t, Expire(c.body[id]));
      es, t := StartAttempt(c, es, t, id);
      assert !WithinLimit(c, t, id);
    }
  }

  lemma EmptyRun(c: Config, s: State)
    ensures IsRun(c, s, [], s) && NoExpiry([])
  {}

  /** Crashes outside the handler are not limited: a message can be delivered any number of times
      without its counter ever being raised. */
  lemma {:induction false} IdleCrashesUnbounded(c: Config, id: Id, k: nat) returns (es: seq<Event>, t: State)
    requires id in c.body
    ensures IsRun(c, Init(c), es, t) && id in t.ready && id in t.history
    ensures t.history[id].deliveries == k && t.counters == map[] && t.inflight == map[]
  {
    hide IsRun, NoExpiry;
    if k == 0 {
      es, t := [], Init(c);
      EmptyRun(c, t);
    } else {
      es, t := IdleCrashesUnbounded(c, id, k - 1);
      Extend(c, Init(c), es, t, Deliver(id, 0));
      t, es := Step(c, t, Deliver(id, 0)), es + [Deliver(id, 0)];
      Extend(c, Init(c), es, t, Crash(0));
      t, es := Step(c, t, Crash(0)), es + [Crash(0)];
    }
  }
}
