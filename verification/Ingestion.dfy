/**
 The ingestion service's acknowledgement protocol (services/ingestion/main.py,
 kafka_producer.py, mqtt_client.py).

 An MQTT message may be acknowledged only once a copy of it is in Kafka. The
 writes are calls to a broker that may lose, keep or duplicate them; the service
 is modelled as threads that interleave freely, and may crash between any two steps.
 */
module Ingestion {
  import opened Dependencies

  /** A topic name split at its slashes. */
  type Topic = seq<string>

  datatype Message = Message(id: nat, topic: Topic, payload: string)

  datatype Kind = Telemetry | MachineEvent | Unrecognized

  /** The topic test of the dispatcher: the last level decides, and a slash must precede it. */
  function KindOf(topic: Topic): Kind {
    if |topic| < 2 then Unrecognized
    else if topic[|topic|-1] == "telemetry" then Telemetry
    else if topic[|topic|-1] == "status" || topic[|topic|-1] == "events" then MachineEvent
    else Unrecognized
  }

  const SUBSCRIPTIONS: seq<Topic> :=
    [["factory", "+", "machine", "+", "sensor", "+", "telemetry"],
     ["factory", "+", "machine", "+", "status"],
     ["factory", "+", "machine", "+", "events"]]

  /** Single-level wildcards only, as in the three subscriptions. */
  predicate Matches(filter: Topic, topic: Topic) {
    |filter| == |topic| && forall i :: 0 <= i < |filter| ==> filter[i] == "+" || filter[i] == topic[i]
  }

  ghost predicate Subscribed(topic: Topic) {
    exists i :: 0 <= i < |SUBSCRIPTIONS| && Matches(SUBSCRIPTIONS[i], topic)
  }

  /** No subscribed topic falls through to the branch that acknowledges without storing. */
  lemma SubscribedIsRecognized(topic: Topic)
    requires Subscribed(topic)
    ensures KindOf(topic) != Unrecognized
    ensures KindOf(topic) == Telemetry <==> Matches(SUBSCRIPTIONS[0], topic)
    ensures KindOf(topic) == MachineEvent <==> Matches(SUBSCRIPTIONS[1], topic) || Matches(SUBSCRIPTIONS[2], topic)
  {
  }

  // ---- Kafka -----------------------------------------------------------------

  datatype Kafka = Kafka(telemetry: seq<Message>, events: seq<Message>, deadLetter: seq<Message>)

  /** What one message meets: whether it parses, validates and serializes, and how its writes go. */
  datatype Weather = Weather(parses: bool, valid: bool, serializes: bool, publish: Report, deadLetter: Report)

  /** KilledWorker: an error the handler does not catch ends the worker thread, with no ack. */
  datatype Outcome = Ack | LeaveUnacked | KilledWorker

  function DeadLetter(k: Kafka, m: Message, w: Weather): (Kafka, Outcome) {
    (k.(deadLetter := k.deadLetter + Landed(m, w.deadLetter)), if w.deadLetter.Confirmed? then Ack else LeaveUnacked)
  }

  /** What processing one dequeued message does to Kafka, and what becomes of its ack. */
  function Process(k: Kafka, m: Message, w: Weather): (Kafka, Outcome) {
    if KindOf(m.topic).Unrecognized? then (k, Ack)
    else if !w.parses || !w.valid then DeadLetter(k, m, w)
    else if !w.serializes then (k, KilledWorker)
    else
      var written := if KindOf(m.topic).Telemetry? then k.(telemetry := k.telemetry + Landed(m, w.publish))
                     else k.(events := k.events + Landed(m, w.publish));
      if w.publish.Confirmed? then (written, Ack) else DeadLetter(written, m, w)
  }

  class KafkaSink {
    var telemetry: seq<Message>
    var events: seq<Message>
    var deadLetter: seq<Message>

    function View(): Kafka
      reads this
    {
      Kafka(telemetry, events, deadLetter)
    }

    constructor ()
      ensures View() == Kafka([], [], [])
    {
      telemetry, events, deadLetter := [], [], [];
    }

    /** Ok when a dead letter is confirmed, Err when that write failed as well. */
    method WriteDeadLetter(m: Message, w: Weather) returns (ok: bool)
      modifies this`deadLetter
      ensures View() == DeadLetter(old(View()), m, w).0
      ensures ok == w.deadLetter.Confirmed?
    {
      deadLetter := deadLetter + Landed(m, w.deadLetter);
      return w.deadLetter.Confirmed?;
    }

    /** Publishes to the message's own topic and falls back to the dead-letter topic. */
    method Publish(m: Message, w: Weather) returns (outcome: Outcome)
      requires w.parses && w.valid && !KindOf(m.topic).Unrecognized?
      modifies this
      ensures (View(), outcome) == Process(old(View()), m, w)
    {
      if !w.serializes {
        return KilledWorker;
      }
      if KindOf(m.topic) == Telemetry {
        telemetry := telemetry + Landed(m, w.publish);
      } else {
        events := events + Landed(m, w.publish);
      }
      if w.publish.Confirmed? {
        return Ack;
      }
      var ok := WriteDeadLetter(m, w);
      return if ok then Ack else LeaveUnacked;
    }
  }

  method ProcessMessage(sink: KafkaSink, m: Message, w: Weather) returns (outcome: Outcome)
    modifies sink
    ensures (sink.View(), outcome) == Process(old(sink.View()), m, w)
  {
    if KindOf(m.topic) == Unrecognized {
      return Ack;
    }
    if !w.parses || !w.valid {
      var ok := sink.WriteDeadLetter(m, w);
      return if ok then Ack else LeaveUnacked;
    }
    outcome := sink.Publish(m, w);
  }

  // ---- One message -----------------------------------------------------------

  /** A copy is in the message's own topic or in the dead-letter topic. */
  predicate Durable(k: Kafka, m: Message) {
    || m in k.deadLetter
    || (KindOf(m.topic).Telemetry? && m in k.telemetry)
    || (KindOf(m.topic).MachineEvent? && m in k.events)
  }

  ghost predicate Extends(k: Kafka, k': Kafka) {
    k.telemetry <= k'.telemetry && k.events <= k'.events && k.deadLetter <= k'.deadLetter
  }

  /** The last write the handling comes to is confirmed. */
  predicate Confirms(w: Weather) {
    if w.parses && w.valid then w.serializes && (w.publish.Confirmed? || w.deadLetter.Confirmed?) else w.deadLetter.Confirmed?
  }

  /** A recognized message is acknowledged exactly when the last write it came to was confirmed, and is
      then durable; and no write ever removes a copy. */
  lemma AckIffConfirmed(k: Kafka, m: Message, w: Weather)
    requires !KindOf(m.topic).Unrecognized?
    ensures var (k', outcome) := Process(k, m, w);
            && Extends(k, k')
            && (outcome == Ack <==> Confirms(w))
            && (outcome == Ack ==> Durable(k', m))
  {
    LandedHas(m, w.publish);
    LandedHas(m, w.deadLetter);
  }

  /** Whatever the topic: no copy is removed, and an ack of a recognized message means durable. */
  lemma ProcessSafe(k: Kafka, m: Message, w: Weather)
    ensures var (k', outcome) := Process(k, m, w);
            Extends(k, k') && (outcome == Ack && !KindOf(m.topic).Unrecognized? ==> Durable(k', m))
  {
    if !KindOf(m.topic).Unrecognized? {
      AckIffConfirmed(k, m, w);
    }
  }

  /** The message comes to its own topic: it parses, validates and serializes. */
  predicate Publishes(m: Message, w: Weather) {
    !KindOf(m.topic).Unrecognized? && w.parses && w.valid && w.serializes
  }

  /** The message comes to the dead-letter topic: it is recognized and malformed, or its own topic does not confirm it. */
  predicate DeadLetters(m: Message, w: Weather) {
    !KindOf(m.topic).Unrecognized? && (!w.parses || !w.valid || (w.serializes && !w.publish.Confirmed?))
  }

  /** Exactly what handling a message writes: each topic gains the landings of its own write and nothing else, and a
      message whose publication is confirmed is not dead-lettered. */
  lemma ProcessWrites(k: Kafka, m: Message, w: Weather, x: Message)
    ensures var k' := Process(k, m, w).0;
            && multiset(k'.telemetry)[x] == multiset(k.telemetry)[x]
                 + (if x == m && Publishes(m, w) && KindOf(m.topic).Telemetry? then w.publish.Landings() else 0)
            && multiset(k'.events)[x] == multiset(k.events)[x]
                 + (if x == m && Publishes(m, w) && KindOf(m.topic).MachineEvent? then w.publish.Landings() else 0)
            && multiset(k'.deadLetter)[x] == multiset(k.deadLetter)[x]
                 + (if x == m && DeadLetters(m, w) then w.deadLetter.Landings() else 0)
  {
    LandedCount(m, w.publish, x);
    LandedCount(m, w.deadLetter, x);
  }

  // ---- One worker draining the queue -----------------------------------------

  /** Room in the bounded queue; a capacity of zero or less means unbounded. */
  predicate HasRoom(queue: seq<Message>, capacity: int) {
    capacity <= 0 || |queue| < capacity
  }

  /** What a worker leaves behind after a backlog: Kafka, the messages it acked, and what is still queued. */
  datatype Drained = Drained(kafka: Kafka, acked: seq<Message>, left: seq<Message>)

  /** Messages are handled oldest first; the k-th handled one meets weather ws(k). An uncaught error stops the worker. */
  function DrainAll(k: Kafka, ms: seq<Message>, ws: nat -> Weather, n: nat): Drained
    decreases ms
  {
    if ms == [] then Drained(k, [], [])
    else
      var (k', outcome) := Process(k, ms[0], ws(n));
      if outcome == KilledWorker then Drained(k', [], ms[1..])
      else
        var rest := DrainAll(k', ms[1..], ws, n + 1);
        rest.(acked := (if outcome == Ack then [ms[0]] else []) + rest.acked)
  }

  /** The in-process queue between the MQTT callback and the workers, with the acks sent so far. */
  class Inbox {
    var jobs: seq<Message>
    var acked: seq<Message>
    const capacity: int

    constructor (capacity: int)
      ensures jobs == [] && acked == [] && this.capacity == capacity
    {
      jobs, acked := [], [];
      this.capacity := capacity;
    }

    /** The MQTT callback: enqueue without blocking, or leave the message unacked. */
    method OnMessage(m: Message, stopping: bool) returns (enqueued: bool)
      modifies this`jobs
      ensures enqueued <==> !stopping && (capacity <= 0 || |old(jobs)| < capacity)
      ensures jobs == if enqueued then old(jobs) + [m] else old(jobs)
    {
      if stopping || (capacity > 0 && |jobs| >= capacity) {
        return false;
      }
      jobs := jobs + [m];
      return true;
    }

    /** The drain loop of a worker; ws gives the weather of each message in turn. */
    method Drain(sink: KafkaSink, ws: nat -> Weather)
      modifies this`jobs, this`acked, sink
      ensures var d := DrainAll(old(sink.View()), old(jobs), ws, 0);
              sink.View() == d.kafka && acked == old(acked) + d.acked && jobs == d.left
    {
      hide Process;
      var n := 0;
      while jobs != []
        invariant var d := DrainAll(old(sink.View()), old(jobs), ws, 0);
                  var rest := DrainAll(sink.View(), jobs, ws, n);
                  d.kafka == rest.kafka && old(acked) + d.acked == acked + rest.acked && d.left == rest.left
        decreases |jobs|
      {
        var m := jobs[0];
        jobs := jobs[1..];
        var outcome := ProcessMessage(sink, m, ws(n));
        if outcome == KilledWorker {
          return;
        }
        if outcome == Ack {
          acked := acked + [m];
        }
        n := n + 1;
      }
    }
  }

  /** Every recognized message a worker acked is durable when it stops, and was one of those it was given. */
  lemma {:induction false} DrainedIsDurable(k: Kafka, ms: seq<Message>, ws: nat -> Weather, n: nat)
    ensures var d := DrainAll(k, ms, ws, n);
            && Extends(k, d.kafka)
            && (forall m :: m in d.acked ==> m in ms && (KindOf(m.topic).Unrecognized? || Durable(d.kafka, m)))
            && |d.acked| + |d.left| <= |ms|
    decreases ms
  {
    hide Process, Durable;
    if ms == [] {
    } else {
      var (k', outcome) := Process(k, ms[0], ws(n));
      ProcessSafe(k, ms[0], ws(n));
      DrainedIsDurable(k', ms[1..], ws, n + 1);
      ExtendsDurable(k', DrainAll(k', ms[1..], ws, n + 1).kafka);
    }
  }

  /** An uncaught error stops the worker at the message. */
  predicate Kills(m: Message, w: Weather) {
    !KindOf(m.topic).Unrecognized? && w.parses && w.valid && !w.serializes
  }

  /** Copies of x that the first n messages of a backlog land in the dead-letter topic, and in their own. */
  function DeadLanded(ms: seq<Message>, ws: nat -> Weather, n: nat, h: nat, x: Message): nat
    requires h <= |ms|
  {
    if h == 0 then 0
    else
      var m, w := ms[h-1], ws(n + h - 1);
      DeadLanded(ms, ws, n, h - 1, x) + if x == m && DeadLetters(m, w) then w.deadLetter.Landings() else 0
  }

  function OwnLanded(ms: seq<Message>, ws: nat -> Weather, n: nat, h: nat, x: Message): nat
    requires h <= |ms|
  {
    if h == 0 then 0
    else
      var m, w := ms[h-1], ws(n + h - 1);
      OwnLanded(ms, ws, n, h - 1, x) + if x == m && Publishes(m, w) then w.publish.Landings() else 0
  }

  /** The messages of the first h that are acked: unrecognized ones, and those whose last write is confirmed. */
  function AckedOf(ms: seq<Message>, ws: nat -> Weather, n: nat, h: nat): seq<Message>
    requires h <= |ms|
  {
    if h == 0 then []
    else
      var m, w := ms[h-1], ws(n + h - 1);
      AckedOf(ms, ws, n, h - 1) + if KindOf(m.topic).Unrecognized? || Confirms(w) then [m] else []
  }

  /** How many messages a worker takes up: all, or up to and with the first that kills it. */
  ghost predicate HandledCount(ms: seq<Message>, ws: nat -> Weather, n: nat, h: nat) {
    && h <= |ms| && (forall i: nat :: i < h - 1 ==> !Kills(ms[i], ws(n + i)))
    && (if h == |ms| then true else h > 0 && Kills(ms[h-1], ws(n + h - 1)))
  }

  lemma {:induction false} AckedOfTail(ms: seq<Message>, ws: nat -> Weather, n: nat, h: nat)
    requires 0 < h <= |ms|
    ensures AckedOf(ms, ws, n, h)
         == (if KindOf(ms[0].topic).Unrecognized? || Confirms(ws(n)) then [ms[0]] else []) + AckedOf(ms[1..], ws, n + 1, h - 1)
  {
    hide Confirms, KindOf;
    if h == 1 {
      assert AckedOf(ms, ws, n, 0) == [] && AckedOf(ms[1..], ws, n + 1, 0) == [];
    } else {
      AckedOfTail(ms, ws, n, h - 1);
      assert ms[1..][h-2] == ms[h-1];
    }
  }

  lemma {:induction false} LandedTail(ms: seq<Message>, ws: nat -> Weather, n: nat, h: nat, x: Message)
    requires 0 < h <= |ms|
    ensures DeadLanded(ms, ws, n, h, x)
         == (if x == ms[0] && DeadLetters(ms[0], ws(n)) then ws(n).deadLetter.Landings() else 0) + DeadLanded(ms[1..], ws, n + 1, h - 1, x)
    ensures OwnLanded(ms, ws, n, h, x)
         == (if x == ms[0] && Publishes(ms[0], ws(n)) then ws(n).publish.Landings() else 0) + OwnLanded(ms[1..], ws, n + 1, h - 1, x)
  {
    hide DeadLetters, Publishes;
    if h == 1 {
      assert DeadLanded(ms, ws, n, 0, x) == 0 && OwnLanded(ms, ws, n, 0, x) == 0;
    } else {
      LandedTail(ms, ws, n, h - 1, x);
      assert ms[1..][h-2] == ms[h-1];
    }
  }

  /** All that a drain does, message by message: how far it gets, which messages it acks and in which order, and how many
      copies of each message end up in the dead-letter topic and in the two others together. */
  lemma {:induction false} DrainIsExact(k: Kafka, ms: seq<Message>, ws: nat -> Weather, n: nat, h: nat, x: Message)
    requires HandledCount(ms, ws, n, h)
    ensures var d := DrainAll(k, ms, ws, n);
            && d.left == ms[h..] && d.acked == AckedOf(ms, ws, n, h)
            && multiset(d.kafka.deadLetter)[x] == multiset(k.deadLetter)[x] + DeadLanded(ms, ws, n, h, x)
            && multiset(d.kafka.telemetry)[x] + multiset(d.kafka.events)[x]
               == multiset(k.telemetry)[x] + multiset(k.events)[x] + OwnLanded(ms, ws, n, h, x)
    decreases ms
  {
    hide Process, AckedOf, DeadLanded, OwnLanded, Kills, Confirms, KindOf, DeadLetters, Publishes;
    if ms == [] {
      NothingDrained(ms, ws, n, x);
    } else {
      var (k', outcome) := Process(k, ms[0], ws(n));
      ProcessWrites(k, ms[0], ws(n), x);
      OutcomeIs(k, ms[0], ws(n));
      AckedOfTail(ms, ws, n, h);
      LandedTail(ms, ws, n, h, x);
      if outcome == KilledWorker {
        assert h == 1;
        NothingDrained(ms[1..], ws, n + 1, x);
      } else {
        HandledTail(ms, ws, n, h);
        DrainIsExact(k', ms[1..], ws, n + 1, h - 1, x);
      }
    }
  }

  lemma NothingDrained(ms: seq<Message>, ws: nat -> Weather, n: nat, x: Message)
    ensures AckedOf(ms, ws, n, 0) == [] && DeadLanded(ms, ws, n, 0, x) == 0 && OwnLanded(ms, ws, n, 0, x) == 0
  {
  }

  lemma OutcomeIs(k: Kafka, m: Message, w: Weather)
    ensures var outcome := Process(k, m, w).1;
            && (outcome == KilledWorker <==> Kills(m, w))
            && (outcome == Ack <==> KindOf(m.topic).Unrecognized? || Confirms(w))
    ensures Publishes(m, w) ==> (KindOf(m.topic).Telemetry? <==> !KindOf(m.topic).MachineEvent?)
  {
  }

  lemma HandledTail(ms: seq<Message>, ws: nat -> Weather, n: nat, h: nat)
    requires ms != [] && HandledCount(ms, ws, n, h) && !Kills(ms[0], ws(n))
    ensures h > 0 && HandledCount(ms[1..], ws, n + 1, h - 1)
  {
    hide Kills;
    forall i: nat | i < h - 2
      ensures !Kills(ms[1..][i], ws(n + 1 + i))
    {
      assert !Kills(ms[i+1], ws(n + (i + 1)));
    }
  }

  // ---- The service as interleaved steps --------------------------------------

  datatype Worker = Idle | Holding(message: Message) | Decided(message: Message, outcome: Outcome) | Gone

  datatype State = State(delivered: set<Message>, acked: set<Message>, queue: seq<Message>, workers: map<nat, Worker>,
                         kafka: Kafka, stopping: bool)

  datatype Step =
    | Deliver(m: Message)                // the MQTT callback, for a first delivery or a redelivery
    | Take(worker: nat)                  // a worker dequeues, running or draining
    | Handle(worker: nat, w: Weather)    // parse, validate, write
    | Finish(worker: nat)                // ack, or leave it
    | Stop                               // the shutdown signal
    | Restart(pool: nat)                 // the process dies at any moment and comes back with fresh threads

  function FreshPool(n: nat): (pool: map<nat, Worker>)
    ensures forall i :: i in pool ==> pool[i] == Idle
  {
    if n == 0 then map[] else FreshPool(n - 1)[n - 1 := Idle]
  }

  function Next(s: State, capacity: int, step: Step): State {
    match step
    case Deliver(m) =>
      if m in s.acked then s
      else
        var seen := s.(delivered := s.delivered + {m});
        if s.stopping || !HasRoom(s.queue, capacity) then seen else seen.(queue := s.queue + [m])
    case Take(i) =>
      if i in s.workers && s.workers[i].Idle? && s.queue != [] then
        s.(queue := s.queue[1..], workers := s.workers[i := Holding(s.queue[0])])
      else s
    case Handle(i, w) =>
      if i in s.workers && s.workers[i].Holding? then
        var (k, outcome) := Process(s.kafka, s.workers[i].message, w);
        s.(kafka := k, workers := s.workers[i := Decided(s.workers[i].message, outcome)])
      else s
    case Finish(i) =>
      if i in s.workers && s.workers[i].Decided? then
        var m := s.workers[i].message;
        match s.workers[i].outcome
        case Ack => s.(acked := s.acked + {m}, workers := s.workers[i := Idle])
        case LeaveUnacked => s.(workers := s.workers[i := Idle])
        case KilledWorker => s.(workers := s.workers[i := Gone])
      else s
    case Stop => s.(stopping := true)
    case Restart(pool) => s.(queue := [], workers := FreshPool(pool), stopping := false)
  }

  const START := State({}, {}, [], map[], Kafka([], [], []), false)

  function Run(capacity: int, steps: seq<Step>): State {
    if steps == [] then START else Next(Run(capacity, steps[..|steps|-1]), capacity, steps[|steps|-1])
  }

  ghost predicate Safe(s: State, capacity: int) {
    && (capacity > 0 ==> |s.queue| <= capacity)
    && (forall i :: 0 <= i < |s.queue| ==> s.queue[i] in s.delivered)
    && (forall i :: i in s.workers ==> SafeWorker(s, s.workers[i]))
    && (forall m :: m in s.acked ==> m in s.delivered && SafelyAcked(s.kafka, m))
  }

  /** A message that may be acknowledged: the dispatcher does not recognize it, or a copy is in Kafka. */
  ghost predicate SafelyAcked(k: Kafka, m: Message) {
    KindOf(m.topic).Unrecognized? || Durable(k, m)
  }

  /** A worker that is about to ack a recognized message has already made it durable. */
  ghost predicate SafeWorker(s: State, w: Worker) {
    match w
    case Holding(m) => m in s.delivered
    case Decided(m, outcome) => m in s.delivered && (outcome == Ack ==> SafelyAcked(s.kafka, m))
    case _ => true
  }

  lemma ExtendsDurable(k: Kafka, k': Kafka)
    requires Extends(k, k')
    ensures forall m :: Durable(k, m) ==> Durable(k', m)
  {
  }

  lemma HandleSafe(s: State, capacity: int, i: nat, w: Weather)
    requires Safe(s, capacity)
    ensures Safe(Next(s, capacity, Handle(i, w)), capacity)
  {
    hide Durable, Process, KindOf;
    if i in s.workers && s.workers[i].Holding? {
      var m := s.workers[i].message;
      ProcessSafe(s.kafka, m, w);
      ExtendsDurable(s.kafka, Process(s.kafka, m, w).0);
    }
  }

  /** Any step at all keeps the invariant, for messages of any topic. */
  lemma NextSafe(s: State, capacity: int, step: Step)
    requires Safe(s, capacity)
    ensures Safe(Next(s, capacity, step), capacity)
  {
    hide SafelyAcked, Process;
    if step.Handle? {
      HandleSafe(s, capacity, step.worker, step.w);
    }
  }

  lemma {:induction false} RunSafe(capacity: int, steps: seq<Step>)
    ensures Safe(Run(capacity, steps), capacity)
  {
    hide Next, Safe;
    if steps == [] {
      StartSafe(capacity);
    } else {
      RunSafe(capacity, steps[..|steps|-1]);
      NextSafe(Run(capacity, steps[..|steps|-1]), capacity, steps[|steps|-1]);
    }
  }

  lemma StartSafe(capacity: int)
    ensures Safe(START, capacity)
  {
  }

  /** Over every interleaving of deliveries, workers, write failures, shutdowns and crashes, an acked message on a
      subscribed topic is durable, whatever else is delivered beside it, and the queue never exceeds its capacity. */
  lemma AckImpliesDurable(capacity: int, steps: seq<Step>, m: Message)
    requires Subscribed(m.topic)
    ensures m in Run(capacity, steps).acked ==> Durable(Run(capacity, steps).kafka, m)
    ensures capacity > 0 ==> |Run(capacity, steps).queue| <= capacity
  {
    RunSafe(capacity, steps);
    SubscribedIsRecognized(m.topic);
  }

  /** The exact condition, message by message: acking can never outrun the copy, in any run of any capacity,
      if and only if the dispatcher recognizes the topic. */
  lemma AckSafeIff(m: Message)
    ensures (forall capacity, steps :: m in Run(capacity, steps).acked ==> Durable(Run(capacity, steps).kafka, m))
            <==> !KindOf(m.topic).Unrecognized?
  {
    hide Run, Durable;
    if KindOf(m.topic).Unrecognized? {
      var w := Weather(true, true, true, Confirmed(0), Confirmed(0));
      UnrecognizedIsDropped(m, w);
      var steps := Recovery(m, w);
      assert m in Run(1, steps).acked && !Durable(Run(1, steps).kafka, m);
    } else {
      forall capacity, steps | m in Run(capacity, steps).acked
        ensures Durable(Run(capacity, steps).kafka, m)
      {
        RunSafe(capacity, steps);
      }
    }
  }

  /** No message is taken in between the shutdown signal and the restart. */
  lemma StopEndsIntake(s: State, capacity: int, m: Message)
    ensures Next(s, capacity, Stop).stopping && Next(s, capacity, Stop).queue == s.queue
    ensures s.stopping ==> Next(s, capacity, Deliver(m)).queue == s.queue && Next(s, capacity, Deliver(m)).stopping
  {
  }

  /** One worker alone, taking, handling and finishing message after message until the queue is empty or it is killed. */
  function WorkThrough(s: State, capacity: int, i: nat, ws: nat -> Weather, n: nat): State
    decreases |s.queue|
  {
    if s.queue == [] || i !in s.workers || !s.workers[i].Idle? then s
    else
      var held := Next(s, capacity, Take(i));
      var decided := Next(held, capacity, Handle(i, ws(n)));
      WorkThrough(Next(decided, capacity, Finish(i)), capacity, i, ws, n + 1)
  }

  /** That is the drain loop: the same messages in the same order, with the same writes and acks. */
  lemma {:induction false} UninterruptedIsDrain(s: State, capacity: int, i: nat, ws: nat -> Weather, n: nat)
    requires i in s.workers && s.workers[i].Idle?
    ensures var s', d := WorkThrough(s, capacity, i, ws, n), DrainAll(s.kafka, s.queue, ws, n);
            && s'.kafka == d.kafka && s'.queue == d.left
            && s'.acked == s.acked + (set m | m in d.acked)
    decreases |s.queue|
  {
    hide Process;
    if s.queue == [] {
      assert (set m | m in DrainAll(s.kafka, s.queue, ws, n).acked) == {};
    } else {
      var m := s.queue[0];
      var (k, outcome) := Process(s.kafka, m, ws(n));
      var next := Next(Next(Next(s, capacity, Take(i)), capacity, Handle(i, ws(n))), capacity, Finish(i));
      assert next.kafka == k && next.queue == s.queue[1..] && next.acked == s.acked + if outcome == Ack then {m} else {};
      if outcome == KilledWorker {
        assert next.workers[i] == Gone;
      } else {
        UninterruptedIsDrain(next, capacity, i, ws, n + 1);
        var rest := DrainAll(k, s.queue[1..], ws, n + 1).acked;
        var all := DrainAll(s.kafka, s.queue, ws, n).acked;
        assert all == (if outcome == Ack then [m] else []) + rest;
        assert (set x | x in all) == (if outcome == Ack then {m} else {}) + (set x | x in rest);
      }
    }
  }

  // ---- Redelivery ------------------------------------------------------------

  /** The process comes back with one worker, and the broker delivers the message to it. */
  function Recovery(m: Message, w: Weather): seq<Step> {
    [Restart(1), Deliver(m), Take(0), Handle(0, w), Finish(0)]
  }

  /** One worker, and nothing but its message in hand. */
  function Alone(s: State, w: Worker): State {
    s.(queue := [], workers := map[0 := w], stopping := false)
  }

  /** From any state, the recovery handles the message once and acks it as that handling says. */
  lemma RecoveryHandles(s: State, capacity: int, m: Message, w: Weather)
    requires m !in s.acked
    ensures var (k, outcome) := Process(s.kafka, m, w);
            var s2 := Next(Next(s, capacity, Restart(1)), capacity, Deliver(m));
            var s' := Next(Next(Next(s2, capacity, Take(0)), capacity, Handle(0, w)), capacity, Finish(0));
            s'.kafka == k && s'.acked == s.acked + if outcome == Ack then {m} else {}
  {
    hide Process, HasRoom;
    var (k, outcome) := Process(s.kafka, m, w);
    var seen := s.(delivered := s.delivered + {m});
    RoomWhenEmpty(capacity);
    assert FreshPool(1) == map[0 := Idle];
    assert Next(s, capacity, Restart(1)) == Alone(s, Idle);
    assert Next(Alone(s, Idle), capacity, Deliver(m)) == Alone(seen, Idle).(queue := [m]);
    assert Next(Alone(seen, Idle).(queue := [m]), capacity, Take(0)) == Alone(seen, Holding(m));
    assert Next(Alone(seen, Holding(m)), capacity, Handle(0, w)) == Alone(seen.(kafka := k), Decided(m, outcome));
  }

  lemma RunsRecovery(capacity: int, steps: seq<Step>, m: Message, w: Weather)
    requires m !in Run(capacity, steps).acked
    ensures var s := Run(capacity, steps);
            var (k, outcome) := Process(s.kafka, m, w);
            var s' := Run(capacity, steps + Recovery(m, w));
            s'.kafka == k && s'.acked == s.acked + if outcome == Ack then {m} else {}
  {
    hide Process, Run, Next;
    RecoveryHandles(Run(capacity, steps), capacity, m, w);
    var p2 := steps + [Restart(1)] + [Deliver(m)];
    RunOne(capacity, steps, Restart(1));
    RunOne(capacity, steps + [Restart(1)], Deliver(m));
    RunOne(capacity, p2, Take(0));
    RunOne(capacity, p2 + [Take(0)], Handle(0, w));
    RunOne(capacity, p2 + [Take(0)] + [Handle(0, w)], Finish(0));
    assert steps + Recovery(m, w) == p2 + [Take(0)] + [Handle(0, w)] + [Finish(0)];
  }

  lemma RoomWhenEmpty(capacity: int)
    ensures HasRoom([], capacity)
  {
  }

  lemma RunOne(capacity: int, steps: seq<Step>, step: Step)
    ensures Run(capacity, steps + [step]) == Next(Run(capacity, steps), capacity, step)
  {
  }

  /** No recognized message is ever lost. At every point of every run, either it has been acked and a copy is in
      Kafka, or the broker still holds it, and from there one redelivery acks it exactly when its last write is
      confirmed, and has then put a copy in Kafka. */
  lemma NothingLost(capacity: int, steps: seq<Step>, m: Message, w: Weather)
    requires !KindOf(m.topic).Unrecognized?
    ensures var s, s' := Run(capacity, steps), Run(capacity, steps + Recovery(m, w));
            if m in s.acked then Durable(s.kafka, m)
            else (m in s'.acked <==> Confirms(w)) && (m in s'.acked ==> Durable(s'.kafka, m))
  {
    hide Run, Process, Durable, Confirms;
    if m in Run(capacity, steps).acked {
      RunSafe(capacity, steps);
    } else {
      RunsRecovery(capacity, steps, m, w);
      AckIffConfirmed(Run(capacity, steps).kafka, m, w);
    }
  }

  /** A message on a topic the dispatcher does not recognize is acked although no copy exists anywhere. */
  lemma UnrecognizedIsDropped(m: Message, w: Weather)
    requires KindOf(m.topic).Unrecognized?
    ensures var s := Run(1, Recovery(m, w));
            m in s.acked && !Durable(s.kafka, m)
  {
    RunsRecovery(1, [], m, w);
    assert [] + Recovery(m, w) == Recovery(m, w);
  }
}
