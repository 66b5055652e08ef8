/**
 The stream processor's message path (services/stream-processor/main.py, dedup.py, registry.py).

 Each message is claimed by event id, written raw, folded into its series and
 republished. The theorems are about whole delivery sequences: what a series
 buffer holds depends on which events were delivered, not on how often, in
 what order, or with what publish failures.
 */
module StreamProcessor {
  import opened Wrappers
  import opened Dependencies
  import opened RealArith
  import SeriesIds
  import opened Window

  datatype SeriesKey = SeriesKey(factoryId: string, productionLineId: string, machineId: string,
                                 deviceId: string, sensorId: string, metric: string)
  {
    function Id(): string {
      SeriesIds.SeriesId(deviceId, metric)
    }
  }

  datatype Event = Event(eventId: string, key: SeriesKey, at: int, value: real)
  {
    function Sample(): Sample {
      Window.Sample(at, value)
    }
  }

  /** A raw payload either fails to parse or is a telemetry event. */
  datatype Message = Malformed | Telemetry(event: Event)

  /** How the calls made while one message is handled go. */
  datatype Health = Health(dedup: Claiming, influx: Report, publish: Report, deadLetter: Report)
  {
    /** The event reaches both the raw store and the processed topic, or the dead-letter topic. */
    predicate Stores() {
      deadLetter.Landings() > 0 || (influx.Confirmed? && publish.Landings() > 0)
    }

    /** Every write the handler relies on is confirmed. */
    predicate Confirms() {
      deadLetter.Confirmed? || (influx.Confirmed? && publish.Confirmed?)
    }
  }

  const HEALTHY := Health(Answered, Confirmed(0), Confirmed(0), Confirmed(0))

  datatype Stage = Unmarshal | InfluxWrite | RepublishProcessed

  datatype State = State(claims: map<string, int>, series: map<string, seq<Sample>>, keys: map<string, SeriesKey>,
                         raw: seq<Event>, processed: seq<Event>, deadLetters: seq<(Message, Stage)>)

  const EMPTY := State(map[], map[], map[], [], [], [])

  // ---- Deduplication ---------------------------------------------------------

  /** Set-if-absent with expiry: the id is free when it was never set or its time has passed. */
  predicate IsFree(claims: map<string, int>, id: string, now: int) {
    id !in claims || now >= claims[id]
  }

  class Deduplicator {
    var claims: map<string, int>
    const ttl: int

    constructor (ttl: int)
      ensures claims == map[] && this.ttl == ttl
    {
      claims := map[];
      this.ttl := ttl;
    }

    method Claim(eventId: string, now: int) returns (first: bool)
      modifies this
      ensures first == IsFree(old(claims), eventId, now)
      ensures claims == if first then old(claims)[eventId := now + ttl] else old(claims)
    {
      if eventId in claims && now < claims[eventId] {
        return false;
      }
      claims := claims[eventId := now + ttl];
      return true;
    }
  }

  // ---- Series registry -------------------------------------------------------

  function SamplesOf(series: map<string, seq<Sample>>, id: string): seq<Sample> {
    if id in series then series[id] else []
  }

  class SeriesRegistry {
    var buffers: map<string, SeriesBuffer>
    var keys: map<string, SeriesKey>
    const maxWindow: int

    ghost predicate Valid()
      reads this, buffers.Values
    {
      && keys.Keys == buffers.Keys
      && (forall id :: id in buffers ==> Ordered(buffers[id].samples) && buffers[id].maxWindow == maxWindow)
      && (forall i, j :: i in buffers && j in buffers && i != j ==> buffers[i] != buffers[j])
    }

    /** The samples of every tracked series. */
    ghost function View(): map<string, seq<Sample>>
      reads this, buffers.Values
    {
      map id | id in buffers :: buffers[id].samples
    }

    constructor (maxWindow: int)
      ensures Valid() && View() == map[] && keys == map[] && this.maxWindow == maxWindow
      ensures buffers == map[]
    {
      buffers, keys := map[], map[];
      this.maxWindow := maxWindow;
    }

    method Record(key: SeriesKey, at: int, value: real)
      requires Valid()
      modifies this, buffers.Values
      ensures Valid() && fresh(buffers.Values - old(buffers.Values))
      ensures View() == old(View())[key.Id() := Arrive(SamplesOf(old(View()), key.Id()), maxWindow, Window.Sample(at, value))]
      ensures keys == if key.Id() in old(keys) then old(keys) else old(keys)[key.Id() := key]
    {
      hide Ordered, Arrive, Valid, View;
      var buf := Track(key);
      label tracked:
      TrackedBuffer(key.Id());
      buf.Add(at, value);
      OneBufferChanged@tracked(key.Id());
    }

    lemma ViewedIds()
      ensures View().Keys == buffers.Keys
    {
    }

    /** What Valid and View say of one tracked buffer. */
    lemma TrackedBuffer(id: string)
      requires Valid() && id in buffers
      ensures Ordered(buffers[id].samples) && buffers[id].maxWindow == maxWindow && buffers[id].samples == SamplesOf(View(), id)
    {
      hide Ordered;
    }

    /** A change inside one buffer changes that series of the view and nothing else. */
    twostate lemma OneBufferChanged(id: string)
      requires old(Valid()) && unchanged(this) && id in buffers && Ordered(buffers[id].samples)
      requires forall i :: i in buffers && buffers[i] != buffers[id] ==> unchanged(buffers[i])
      ensures Valid() && View() == old(View())[id := buffers[id].samples]
    {
      hide Ordered;
    }

    /** The buffer of the key's series, created empty when the series is new. */
    method Track(key: SeriesKey) returns (buf: SeriesBuffer)
      requires Valid()
      modifies this
      ensures Valid() && fresh(buffers.Values - old(buffers.Values))
      ensures key.Id() in buffers && buffers[key.Id()] == buf
      ensures View() == if key.Id() in old(View()) then old(View()) else old(View())[key.Id() := []]
      ensures keys == if key.Id() in old(keys) then old(keys) else old(keys)[key.Id() := key]
    {
      hide Ordered;
      var id := key.Id();
      if id in buffers {
        return buffers[id];
      }
      EmptyOrdered();
      buf := new SeriesBuffer(maxWindow);
      buffers := buffers[id := buf];
      keys := keys[id := key];
    }
  }

  lemma EmptyOrdered()
    ensures Ordered([])
  {
  }

  // ---- One message -----------------------------------------------------------

  /** What handling one message does to the state, and whether its offset is committed. */
  function Handle(st: State, ttl: int, maxWindow: int, msg: Message, now: int, up: Health): (State, bool) {
    match msg
    case Malformed => SendToDeadLetter(st, msg, Unmarshal, up)
    case Telemetry(evt) =>
      var free := IsFree(st.claims, evt.eventId, now);
      var claimed := if free && !up.dedup.Unreachable? then st.(claims := st.claims[evt.eventId := now + ttl]) else st;
      if !up.dedup.Answered? then (claimed, false)
      else if !free then (claimed, true)
      else HandleFirstCopy(claimed, maxWindow, evt, up)
  }

  /** The part that only the first copy of an event reaches. */
  function HandleFirstCopy(st: State, maxWindow: int, evt: Event, up: Health): (State, bool) {
    var written := st.(raw := st.raw + Landed(evt, up.influx));
    if !up.influx.Confirmed? then SendToDeadLetter(written, Telemetry(evt), InfluxWrite, up)
    else
      var id := evt.key.Id();
      var recorded := written.(
        series := st.series[id := Arrive(SamplesOf(st.series, id), maxWindow, evt.Sample())],
        keys := if id in st.keys then st.keys else st.keys[id := evt.key]);
      var announced := recorded.(processed := st.processed + Landed(evt, up.publish));
      if !up.publish.Confirmed? then SendToDeadLetter(announced, Telemetry(evt), RepublishProcessed, up)
      else (announced, true)
  }

  function SendToDeadLetter(st: State, msg: Message, stage: Stage, up: Health): (State, bool) {
    (st.(deadLetters := st.deadLetters + Landed((msg, stage), up.deadLetter)), up.deadLetter.Confirmed?)
  }

  class Processor {
    const dedup: Deduplicator
    const registry: SeriesRegistry
    var raw: seq<Event>
    var processed: seq<Event>
    var deadLetters: seq<(Message, Stage)>

    ghost predicate Valid()
      reads this, registry, registry.buffers.Values
    {
      registry.Valid()
    }

    ghost function View(): State
      reads this, dedup, registry, registry.buffers.Values
    {
      State(dedup.claims, registry.View(), registry.keys, raw, processed, deadLetters)
    }

    constructor (ttl: int, maxWindow: int)
      ensures Valid() && View() == EMPTY && dedup.ttl == ttl && registry.maxWindow == maxWindow
    {
      dedup := new Deduplicator(ttl);
      registry := new SeriesRegistry(maxWindow);
      raw, processed, deadLetters := [], [], [];
    }

    method ProcessMessage(msg: Message, now: int, up: Health) returns (commit: bool)
      requires Valid()
      modifies this, dedup, registry, registry.buffers.Values
      ensures Valid() && fresh(registry.buffers.Values - old(registry.buffers.Values))
      ensures (View(), commit) == Handle(old(View()), dedup.ttl, registry.maxWindow, msg, now, up)
    {
      hide HandleFirstCopy, Ordered, SeriesRegistry.View, SeriesRegistry.Valid;
      if msg.Malformed? {
        commit := DeadLetter(msg, Unmarshal, up);
        return;
      }
      var evt := msg.event;
      if up.dedup.Unreachable? {
        return false;
      }
      var firstSeen := dedup.Claim(evt.eventId, now);
      if up.dedup.AnswerLost? {
        return false;
      }
      if !firstSeen {
        return true;
      }
      commit := ProcessFirstCopy(evt, up);
    }

    method ProcessFirstCopy(evt: Event, up: Health) returns (commit: bool)
      requires Valid()
      modifies this, registry, registry.buffers.Values
      ensures Valid() && fresh(registry.buffers.Values - old(registry.buffers.Values))
      ensures (View(), commit) == HandleFirstCopy(old(View()), registry.maxWindow, evt, up)
    {
      hide Ordered, Arrive, SeriesRegistry.View, SeriesRegistry.Valid;
      raw := raw + Landed(evt, up.influx);
      if !up.influx.Confirmed? {
        commit := DeadLetter(Telemetry(evt), InfluxWrite, up);
        return;
      }
      registry.Record(evt.key, evt.at, evt.value);
      processed := processed + Landed(evt, up.publish);
      if !up.publish.Confirmed? {
        commit := DeadLetter(Telemetry(evt), RepublishProcessed, up);
        return;
      }
      return true;
    }

    method DeadLetter(msg: Message, stage: Stage, up: Health) returns (commit: bool)
      modifies this`deadLetters
      ensures (View(), commit) == SendToDeadLetter(old(View()), msg, stage, up)
    {
      deadLetters := deadLetters + Landed((msg, stage), up.deadLetter);
      return up.deadLetter.Confirmed?;
    }

    /** One flush: the aggregate points of every series and window that has samples, as of now. */
    method FlushOnce(windows: seq<int>, now: int, sqrt: real -> real) returns (points: map<(string, int), WindowStats>)
      requires Valid()
      ensures IsFlush(points, View(), View().series.Keys, windows, now, sqrt)
    {
      hide IsFlush, SeriesRegistry.View, SeriesRegistry.Valid;
      ghost var st := View();
      registry.ViewedIds();
      points := map[];
      NothingFlushed(st, windows, now, sqrt);
      var left := registry.buffers.Keys;
      while left != {}
        invariant left <= registry.buffers.Keys == st.series.Keys
        invariant IsFlush(points, st, st.series.Keys - left, windows, now, sqrt)
        decreases |left|
      {
        var id :| id in left;
        var more := FlushSeries(id, windows, now, sqrt);
        FlushesAdd(points, more, st, st.series.Keys - left, id, windows, now, sqrt);
        points := points + more;
        assert st.series.Keys - (left - {id}) == st.series.Keys - left + {id};
        left := left - {id};
      }
      assert st.series.Keys - left == st.series.Keys;
    }

    /** The points of one series, window by window. */
    method FlushSeries(id: string, windows: seq<int>, now: int, sqrt: real -> real) returns (points: map<(string, int), WindowStats>)
      requires Valid() && id in registry.buffers
      ensures IsFlush(points, View(), {id}, windows, now, sqrt)
    {
      hide StatsSince;
      points := map[];
      for k := 0 to |windows|
        invariant IsFlush(points, View(), {id}, windows[..k], now, sqrt)
      {
        assert windows[..k+1] == windows[..k] + [windows[k]];
        var stats := registry.buffers[id].StatsFor(sqrt, now, windows[k]);
        assert stats == Query(sqrt, View(), id, now, windows[k]);
        if stats.Some? {
          points := points[(id, windows[k]) := stats.value];
        }
      }
      assert windows[..|windows|] == windows;
    }
  }

  /** The points are exactly the answers of these series to these windows. */
  ghost predicate IsFlush(points: map<(string, int), WindowStats>, st: State, ids: set<string>, windows: seq<int>,
                          now: int, sqrt: real -> real)
  {
    && (forall id, w :: (id, w) in points <==> id in ids && w in windows && Query(sqrt, st, id, now, w).Some?)
    && (forall id, w :: (id, w) in points ==> Some(points[(id, w)]) == Query(sqrt, st, id, now, w))
  }

  lemma NothingFlushed(st: State, windows: seq<int>, now: int, sqrt: real -> real)
    ensures IsFlush(map[], st, st.series.Keys - st.series.Keys, windows, now, sqrt)
  {
  }

  /** Every series and window with a sample gets its point, and the point describes exactly the samples of that series
      since the window began. */
  lemma FlushDescribes(points: map<(string, int), WindowStats>, st: State, ids: set<string>, windows: seq<int>,
                       now: int, sqrt: real -> real, id: string, w: int)
    requires IsFlush(points, st, ids, windows, now, sqrt) && IsSqrt(sqrt)
    ensures (id, w) in points <==> id in ids && w in windows && exists x :: x in SamplesOf(st.series, id) && x.at >= now - w
    ensures (id, w) in points ==>
              var inWindow := Since(SamplesOf(st.series, id), now - w);
              inWindow != [] && Describes(points[(id, w)], inWindow)
  {
    hide StatsSince, Describes, SamplesOf;
    QueryDescribes(sqrt, SamplesOf(st.series, id), now - w);
  }

  lemma FlushesAdd(points: map<(string, int), WindowStats>, more: map<(string, int), WindowStats>, st: State,
                   ids: set<string>, id: string, windows: seq<int>, now: int, sqrt: real -> real)
    requires IsFlush(points, st, ids, windows, now, sqrt) && IsFlush(more, st, {id}, windows, now, sqrt)
    ensures IsFlush(points + more, st, ids + {id}, windows, now, sqrt)
  {
    hide Query;
  }

  // ---- Whole delivery sequences ----------------------------------------------

  datatype Delivery = Delivery(msg: Message, now: int, up: Health)

  function Run(ttl: int, maxWindow: int, ds: seq<Delivery>): State {
    if ds == [] then EMPTY
    else
      var n := |ds| - 1;
      Handle(Run(ttl, maxWindow, ds[..n]), ttl, maxWindow, ds[n].msg, ds[n].now, ds[n].up).0
  }

  /** The delivery reaches its series buffer. */
  predicate IsRecorded(st: State, d: Delivery) {
    && d.msg.Telemetry? && d.up.dedup.Answered? && d.up.influx.Confirmed?
    && IsFree(st.claims, d.msg.event.eventId, d.now)
  }

  /** The events that reach a series buffer, in order. */
  function Recorded(ttl: int, maxWindow: int, ds: seq<Delivery>): seq<Event> {
    if ds == [] then []
    else
      var n := |ds| - 1;
      Recorded(ttl, maxWindow, ds[..n])
        + if IsRecorded(Run(ttl, maxWindow, ds[..n]), ds[n]) then [ds[n].msg.event] else []
  }

  /** The samples that events contribute to one series. */
  function History(es: seq<Event>, id: string): seq<Sample> {
    if es == [] then []
    else
      var n := |es| - 1;
      History(es[..n], id) + if es[n].key.Id() == id then [es[n].Sample()] else []
  }

  lemma HistoryAppend(es: seq<Event>, e: Event, id: string)
    ensures History(es + [e], id) == History(es, id) + if e.key.Id() == id then [e.Sample()] else []
  {
  }

  lemma BufferAppend(h: seq<Sample>, x: Sample, maxWindow: int)
    ensures Buffer(h + [x], maxWindow) == Arrive(Buffer(h, maxWindow), maxWindow, x)
  {
  }

  ghost predicate Shards(series: map<string, seq<Sample>>, es: seq<Event>, maxWindow: int) {
    && (forall id :: id in series <==> History(es, id) != [])
    && (forall id :: id in series ==> series[id] == Buffer(History(es, id), maxWindow))
  }

  /** Whatever fails, each series is exactly the buffer of its own recorded samples. */
  lemma {:induction false} RunShardsRecorded(ttl: int, maxWindow: int, ds: seq<Delivery>)
    ensures Shards(Run(ttl, maxWindow, ds).series, Recorded(ttl, maxWindow, ds), maxWindow)
  {
    hide Arrive, Buffer, History;
    if ds == [] {
      NothingRecorded(maxWindow);
    } else {
      var n := |ds| - 1;
      var st, es := Run(ttl, maxWindow, ds[..n]), Recorded(ttl, maxWindow, ds[..n]);
      RunShardsRecorded(ttl, maxWindow, ds[..n]);
      if IsRecorded(st, ds[n]) {
        ShardStep(st.series, es, ds[n].msg.event, maxWindow);
      } else {
        assert Recorded(ttl, maxWindow, ds) == es;
      }
    }
  }

  lemma NothingRecorded(maxWindow: int)
    ensures Shards(map[], [], maxWindow)
  {
  }

  lemma ShardStep(series: map<string, seq<Sample>>, es: seq<Event>, e: Event, maxWindow: int)
    requires Shards(series, es, maxWindow)
    ensures Shards(series[e.key.Id() := Arrive(SamplesOf(series, e.key.Id()), maxWindow, e.Sample())], es + [e], maxWindow)
  {
    hide Arrive, History;
    var id := e.key.Id();
    BufferAppend(History(es, id), e.Sample(), maxWindow);
    assert SamplesOf(series, id) == Buffer(History(es, id), maxWindow);
    var series' := series[id := Arrive(SamplesOf(series, id), maxWindow, e.Sample())];
    forall i
      ensures i in series' <==> History(es + [e], i) != []
      ensures i in series' ==> series'[i] == Buffer(History(es + [e], i), maxWindow)
    {
      HistoryAppend(es, e, i);
      assert i != id ==> History(es + [e], i) == History(es, i);
    }
  }

  // ---- Each event is recorded once -------------------------------------------

  ghost predicate SameId(ds: seq<Delivery>, i: nat, j: nat)
    requires i < |ds| && j < |ds|
  {
    ds[i].msg.Telemetry? && ds[j].msg.Telemetry? && ds[i].msg.event.eventId == ds[j].msg.event.eventId
  }

  /** Copies of an event arrive before the claim made by any earlier copy expires. */
  ghost predicate Unexpired(ds: seq<Delivery>, ttl: int) {
    forall i, j :: 0 <= i < j < |ds| && SameId(ds, i, j) ==> ds[j].now < ds[i].now + ttl
  }

  /** Every claim was made by some delivery of that id. */
  ghost predicate ClaimsFrom(claims: map<string, int>, ds: seq<Delivery>, ttl: int) {
    forall id :: id in claims ==>
      exists i :: 0 <= i < |ds| && ds[i].msg.Telemetry? && ds[i].msg.event.eventId == id && claims[id] == ds[i].now + ttl
  }

  lemma {:induction false} RunClaims(ttl: int, maxWindow: int, ds: seq<Delivery>)
    ensures ClaimsFrom(Run(ttl, maxWindow, ds).claims, ds, ttl)
  {
    hide Arrive, HandleFirstCopy;
    if ds == [] {
    } else {
      var n := |ds| - 1;
      var before, after := Run(ttl, maxWindow, ds[..n]).claims, Run(ttl, maxWindow, ds).claims;
      RunClaims(ttl, maxWindow, ds[..n]);
      ClaimsOfHandle(Run(ttl, maxWindow, ds[..n]), ttl, maxWindow, ds[n]);
      forall id | id in after
        ensures exists i :: 0 <= i < |ds| && ds[i].msg.Telemetry? && ds[i].msg.event.eventId == id && after[id] == ds[i].now + ttl
      {
        if id in before && after[id] == before[id] {
          var i :| 0 <= i < n && ds[..n][i].msg.Telemetry? && ds[..n][i].msg.event.eventId == id && before[id] == ds[..n][i].now + ttl;
          assert ds[i] == ds[..n][i];
        } else {
          assert ds[n].msg.event.eventId == id;
        }
      }
    }
  }

  /** A message touches the claim of its own id only, and only when that id is free. */
  lemma ClaimsOfHandle(st: State, ttl: int, maxWindow: int, d: Delivery)
    ensures var after := Handle(st, ttl, maxWindow, d.msg, d.now, d.up).0.claims;
            after == if d.msg.Telemetry? && !d.up.dedup.Unreachable? && IsFree(st.claims, d.msg.event.eventId, d.now)
                     then st.claims[d.msg.event.eventId := d.now + ttl] else st.claims
  {
    hide Arrive, Landed;
  }

  ghost predicate DistinctIds(es: seq<Event>) {
    forall i, j :: 0 <= i < j < |es| ==> es[i].eventId != es[j].eventId
  }

  lemma UnexpiredPrefix(ds: seq<Delivery>, ttl: int)
    requires ds != [] && Unexpired(ds, ttl)
    ensures Unexpired(ds[..|ds|-1], ttl)
  {
  }

  /** A claimed id is never free again while its copies keep within the expiry time. */
  lemma ClaimedStaysClaimed(ttl: int, maxWindow: int, ds: seq<Delivery>)
    requires ds != [] && Unexpired(ds, ttl) && ds[|ds|-1].msg.Telemetry?
    ensures var n := |ds| - 1;
            var claims, id := Run(ttl, maxWindow, ds[..n]).claims, ds[n].msg.event.eventId;
            IsFree(claims, id, ds[n].now) <==> id !in claims
  {
    hide Handle, Run;
    var n := |ds| - 1;
    var claims, id := Run(ttl, maxWindow, ds[..n]).claims, ds[n].msg.event.eventId;
    RunClaims(ttl, maxWindow, ds[..n]);
    if id in claims {
      var i :| 0 <= i < n && ds[..n][i].msg.Telemetry? && ds[..n][i].msg.event.eventId == id && claims[id] == ds[..n][i].now + ttl;
      assert SameId(ds, i, n);
    }
  }

  /** No event id is folded into the aggregates twice, whatever fails and however often it is delivered. */
  lemma {:induction false} RecordedOnce(ttl: int, maxWindow: int, ds: seq<Delivery>)
    requires Unexpired(ds, ttl)
    ensures DistinctIds(Recorded(ttl, maxWindow, ds))
    ensures forall e :: e in Recorded(ttl, maxWindow, ds) ==> e.eventId in Run(ttl, maxWindow, ds).claims
  {
    hide Arrive, HandleFirstCopy, Handle;
    if ds == [] {
    } else {
      var n := |ds| - 1;
      UnexpiredPrefix(ds, ttl);
      RecordedOnce(ttl, maxWindow, ds[..n]);
      ClaimsOfHandle(Run(ttl, maxWindow, ds[..n]), ttl, maxWindow, ds[n]);
      if IsRecorded(Run(ttl, maxWindow, ds[..n]), ds[n]) {
        ClaimedStaysClaimed(ttl, maxWindow, ds);
        var es := Recorded(ttl, maxWindow, ds[..n]);
        assert forall i :: 0 <= i < |es| ==> es[i] in es;
      }
    }
  }

  /** Neither the claim store nor the raw write fails. Publishing may fail at will. */
  ghost predicate Healthy(ds: seq<Delivery>) {
    forall i :: 0 <= i < |ds| ==> ds[i].up.dedup.Answered? && ds[i].up.influx.Confirmed?
  }

  ghost predicate ClockMonotone(ds: seq<Delivery>) {
    forall i, j :: 0 <= i < j < |ds| ==> ds[i].now <= ds[j].now
  }

  /** Every id delivered so far is recorded, under a claim no later than any of its copies made. */
  ghost predicate ClaimedEarly(ds: seq<Delivery>, es: seq<Event>, claims: map<string, int>, ttl: int) {
    forall i :: 0 <= i < |ds| && ds[i].msg.Telemetry? ==>
      var id := ds[i].msg.event.eventId;
      id in claims && claims[id] <= ds[i].now + ttl && exists k :: 0 <= k < |es| && es[k].eventId == id
  }

  lemma {:induction false} DistinctMeansClaimedEarly(ttl: int, maxWindow: int, ds: seq<Delivery>)
    requires Healthy(ds) && ClockMonotone(ds) && DistinctIds(Recorded(ttl, maxWindow, ds))
    ensures ClaimedEarly(ds, Recorded(ttl, maxWindow, ds), Run(ttl, maxWindow, ds).claims, ttl)
    ensures Unexpired(ds, ttl)
  {
    hide Handle, ClaimedEarly, Unexpired, ClaimsFrom, IsFree;
    if ds == [] {
      NothingClaimed(ttl);
    } else {
      var n := |ds| - 1;
      var st, es, es' := Run(ttl, maxWindow, ds[..n]), Recorded(ttl, maxWindow, ds[..n]), Recorded(ttl, maxWindow, ds);
      assert es <= es';
      DistinctMeansClaimedEarly(ttl, maxWindow, ds[..n]);
      ClaimsOfHandle(st, ttl, maxWindow, ds[n]);
      RunClaims(ttl, maxWindow, ds[..n]);
      ClaimedEarlyStep(ds, es, st.claims, es', Run(ttl, maxWindow, ds).claims, ttl);
    }
  }

  lemma NothingClaimed(ttl: int)
    ensures ClaimedEarly([], [], map[], ttl) && Unexpired([], ttl)
  {
  }

  lemma ClaimedEarlyStep(ds: seq<Delivery>, es: seq<Event>, claims: map<string, int>,
                         es': seq<Event>, claims': map<string, int>, ttl: int)
    requires ds != [] && ClockMonotone(ds) && DistinctIds(es')
    requires ClaimedEarly(ds[..|ds|-1], es, claims, ttl) && Unexpired(ds[..|ds|-1], ttl)
    requires ClaimsFrom(claims, ds[..|ds|-1], ttl)
    requires var d := ds[|ds|-1];
             if d.msg.Telemetry? && IsFree(claims, d.msg.event.eventId, d.now)
             then es' == es + [d.msg.event] && claims' == claims[d.msg.event.eventId := d.now + ttl]
             else es' == es && claims' == claims
    ensures ClaimedEarly(ds, es', claims', ttl) && Unexpired(ds, ttl)
  {
    var n := |ds| - 1;
    var d := ds[n];
    forall i | 0 <= i < n && ds[i].msg.Telemetry?
      ensures var id := ds[i].msg.event.eventId;
              && id in claims && claims[id] <= ds[i].now + ttl
              && (d.msg.Telemetry? && IsFree(claims, d.msg.event.eventId, d.now) ==> id != d.msg.event.eventId)
      ensures exists k :: 0 <= k < |es| && es[k].eventId == ds[i].msg.event.eventId
    {
      assert ds[..n][i] == ds[i];
      var id := ds[i].msg.event.eventId;
      var k :| 0 <= k < |es| && es[k].eventId == id;
      if d.msg.Telemetry? && IsFree(claims, d.msg.event.eventId, d.now) {
        assert es'[k] == es[k] && es'[|es|] == d.msg.event;
      }
    }
    forall i | 0 <= i <= n && ds[i].msg.Telemetry?
      ensures var id := ds[i].msg.event.eventId;
              id in claims' && claims'[id] <= ds[i].now + ttl && exists k :: 0 <= k < |es'| && es'[k].eventId == id
    {
      var id := ds[i].msg.event.eventId;
      if i < n {
        assert ds[..n][i] == ds[i];
        var k :| 0 <= k < |es| && es[k].eventId == id;
        assert es'[k].eventId == id;
      } else if IsFree(claims, id, d.now) {
        assert es'[|es|].eventId == id;
      } else {
        var j :| 0 <= j < n && ds[..n][j].msg.Telemetry? && ds[..n][j].msg.event.eventId == id && claims[id] == ds[..n][j].now + ttl;
        var k :| 0 <= k < |es| && es[k].eventId == id;
        assert es'[k].eventId == id;
      }
    }
    forall i, j | 0 <= i < j <= n && SameId(ds, i, j)
      ensures ds[j].now < ds[i].now + ttl
    {
      if j < n {
        assert SameId(ds[..n], i, j);
      } else {
        assert ds[..n][i] == ds[i];
      }
    }
  }

  /** With healthy stores and a monotone clock, aggregation is exactly-once if and only if
      every copy arrives within the expiry time of each earlier copy. */
  lemma RecordedOnceIff(ttl: int, maxWindow: int, ds: seq<Delivery>)
    requires Healthy(ds) && ClockMonotone(ds)
    ensures DistinctIds(Recorded(ttl, maxWindow, ds)) <==> Unexpired(ds, ttl)
  {
    if DistinctIds(Recorded(ttl, maxWindow, ds)) {
      DistinctMeansClaimedEarly(ttl, maxWindow, ds);
    }
    if Unexpired(ds, ttl) {
      RecordedOnce(ttl, maxWindow, ds);
    }
  }

  // ---- Delivery invariance ---------------------------------------------------

  ghost predicate Delivered(ds: seq<Delivery>, e: Event) {
    exists i :: 0 <= i < |ds| && ds[i].msg == Telemetry(e)
  }

  /** One payload per id, and one event per instant of a series. */
  ghost predicate Consistent(ds: seq<Delivery>) {
    forall e, f :: Delivered(ds, e) && Delivered(ds, f)
      && (e.eventId == f.eventId || (e.key.Id() == f.key.Id() && e.at == f.at))
      ==> e == f
  }

  /** No claim expires and neither the claim store nor the raw write fails. Publishing may fail at will. */
  ghost predicate Smooth(ds: seq<Delivery>, ttl: int) {
    Unexpired(ds, ttl) && Healthy(ds)
  }

  lemma SmoothPrefix(ds: seq<Delivery>, ttl: int)
    requires ds != [] && Smooth(ds, ttl) && Consistent(ds)
    ensures Smooth(ds[..|ds|-1], ttl) && Consistent(ds[..|ds|-1])
  {
  }

  ghost predicate RecordsExactly(es: seq<Event>, claims: map<string, int>, ds: seq<Delivery>) {
    && (forall e :: e in es <==> Delivered(ds, e))
    && (forall id :: id in claims ==> exists e :: e in es && e.eventId == id)
  }

  /** In a smooth run the recorded events are exactly the delivered ones. */
  lemma {:induction false} SmoothRecordsAll(ttl: int, maxWindow: int, ds: seq<Delivery>)
    requires Smooth(ds, ttl) && Consistent(ds)
    ensures RecordsExactly(Recorded(ttl, maxWindow, ds), Run(ttl, maxWindow, ds).claims, ds)
  {
    hide Handle, Consistent, Smooth, Delivered;
    if ds == [] {
      NoneDelivered();
    } else {
      var n := |ds| - 1;
      SmoothPrefix(ds, ttl);
      SmoothRecordsAll(ttl, maxWindow, ds[..n]);
      ClaimsOfHandle(Run(ttl, maxWindow, ds[..n]), ttl, maxWindow, ds[n]);
      if ds[n].msg.Telemetry? {
        assert Unexpired(ds, ttl) by { UnexpiredOf(ds, ttl); }
        UnexpiredOf(ds, ttl);
        ClaimedStaysClaimed(ttl, maxWindow, ds);
      }
      RecordStep(ds, Recorded(ttl, maxWindow, ds[..n]), Run(ttl, maxWindow, ds[..n]).claims,
                 Recorded(ttl, maxWindow, ds), Run(ttl, maxWindow, ds).claims);
    }
  }

  lemma UnexpiredOf(ds: seq<Delivery>, ttl: int)
    requires ds != [] && Smooth(ds, ttl)
    ensures Unexpired(ds, ttl)
    ensures ds[|ds|-1].up.dedup.Answered? && ds[|ds|-1].up.influx.Confirmed?
  {
  }

  lemma NoneDelivered()
    ensures forall e :: !Delivered([], e)
  {
  }

  lemma RecordStep(ds: seq<Delivery>, es: seq<Event>, claims: map<string, int>, es': seq<Event>, claims': map<string, int>)
    requires ds != [] && Consistent(ds) && RecordsExactly(es, claims, ds[..|ds|-1])
    requires var d := ds[|ds|-1];
             if d.msg.Telemetry? && d.msg.event.eventId !in claims
             then es' == es + [d.msg.event] && claims'.Keys == claims.Keys + {d.msg.event.eventId}
             else es' == es && claims' == claims
    ensures RecordsExactly(es', claims', ds)
  {
  }

  ghost predicate At(e: Event, id: string, t: int) {
    e.key.Id() == id && e.at == t
  }

  lemma HistoryStep(es: seq<Event>, id: string, t: int)
    requires es != []
    ensures var n := |es| - 1;
            AtTime(History(es, id), t)
            == AtTime(History(es[..n], id), t) + if At(es[n], id, t) then [es[n].Sample()] else []
  {
    var n := |es| - 1;
    AtTimeAppend(History(es[..n], id), if es[n].key.Id() == id then [es[n].Sample()] else [], t);
    AtTimeOne(es[n].Sample(), t);
  }

  lemma {:induction false} NoSampleAt(es: seq<Event>, id: string, t: int)
    requires forall i :: 0 <= i < |es| ==> !At(es[i], id, t)
    ensures AtTime(History(es, id), t) == []
  {
    if es == [] {
    } else {
      NoSampleAt(es[..|es|-1], id, t);
      HistoryStep(es, id, t);
    }
  }

  lemma {:induction false} OneSampleAt(es: seq<Event>, id: string, t: int, k: nat)
    requires k < |es| && At(es[k], id, t)
    requires forall i :: 0 <= i < |es| && i != k ==> !At(es[i], id, t)
    ensures AtTime(History(es, id), t) == [es[k].Sample()]
  {
    hide AtTime, History, At;
    var n := |es| - 1;
    HistoryStep(es, id, t);
    if k == n {
      NoSampleAt(es[..n], id, t);
    } else {
      OneSampleAt(es[..n], id, t, k);
    }
  }

  /** Per instant, the history of a series depends only on the set of recorded events. */
  lemma HistoryDetermined(es: seq<Event>, fs: seq<Event>, id: string, t: int)
    requires DistinctIds(es) && DistinctIds(fs)
    requires forall e :: e in es <==> e in fs
    requires forall e, f :: e in es && f in es && At(e, id, t) && At(f, id, t) ==> e == f
    ensures AtTime(History(es, id), t) == AtTime(History(fs, id), t)
  {
    hide AtTime, History, At;
    if i :| 0 <= i < |es| && At(es[i], id, t) {
      assert es[i] in fs;
      var j :| 0 <= j < |fs| && fs[j] == es[i];
      OneSampleAt(es, id, t, i);
      OneSampleAt(fs, id, t, j);
    } else {
      NoSampleAt(es, id, t);
      NoSampleAt(fs, id, t);
    }
  }

  /** Two delivery sequences that carry the same events, each any number of times and in any
      order, leave every series the same. One of them may be in-order and exactly-once. */
  lemma DeliveryInvariance(ttl: int, maxWindow: int, ds: seq<Delivery>, ds': seq<Delivery>)
    requires Smooth(ds, ttl) && Smooth(ds', ttl) && Consistent(ds)
    requires forall e :: Delivered(ds, e) <==> Delivered(ds', e)
    ensures Run(ttl, maxWindow, ds).series == Run(ttl, maxWindow, ds').series
  {
    hide Run, Recorded, History, Buffer, Delivered, AtTime;
    var es, es' := Recorded(ttl, maxWindow, ds), Recorded(ttl, maxWindow, ds');
    SmoothRecordsAll(ttl, maxWindow, ds);
    SmoothRecordsAll(ttl, maxWindow, ds');
    RecordedOnce(ttl, maxWindow, ds);
    RecordedOnce(ttl, maxWindow, ds');
    RunShardsRecorded(ttl, maxWindow, ds);
    RunShardsRecorded(ttl, maxWindow, ds');
    forall id
      ensures Buffer(History(es, id), maxWindow) == Buffer(History(es', id), maxWindow)
      ensures History(es, id) == [] <==> History(es', id) == []
    {
      forall t
        ensures AtTime(History(es, id), t) == AtTime(History(es', id), t)
      {
        HistoryDetermined(es, es', id, t);
      }
      NonEmptyAlike(History(es, id), History(es', id));
      BufferDetermined(History(es, id), History(es', id), maxWindow);
    }
  }

  /** The answer a flush gets for one series, as of now. */
  function Query(sqrt: real -> real, st: State, id: string, now: int, window: int): Option<WindowStats> {
    StatsSince(sqrt, SamplesOf(st.series, id), now - window)
  }

  /** Hence no statistic tells the two deliveries apart. */
  lemma StatsInvariance(sqrt: real -> real, ttl: int, maxWindow: int, ds: seq<Delivery>, ds': seq<Delivery>,
                        id: string, now: int, window: int)
    requires Smooth(ds, ttl) && Smooth(ds', ttl) && Consistent(ds)
    requires forall e :: Delivered(ds, e) <==> Delivered(ds', e)
    ensures Query(sqrt, Run(ttl, maxWindow, ds), id, now, window) == Query(sqrt, Run(ttl, maxWindow, ds'), id, now, window)
  {
    DeliveryInvariance(ttl, maxWindow, ds, ds');
  }

  /** Whatever failed on the way, a window query asked no earlier than the newest recorded sample is answered
      as if every recorded sample of the series had been kept, sorted by event time. */
  lemma QueryIsFullHistory(sqrt: real -> real, ttl: int, maxWindow: int, ds: seq<Delivery>, id: string, now: int, window: int)
    requires window <= maxWindow
    requires var h := History(Recorded(ttl, maxWindow, ds), id);
             h != [] ==> now >= Newest(h)
    ensures Query(sqrt, Run(ttl, maxWindow, ds), id, now, window)
         == StatsSince(sqrt, SortByTime(History(Recorded(ttl, maxWindow, ds), id)), now - window)
  {
    hide Run, Recorded, History, Newest, StatsSince;
    RunShardsRecorded(ttl, maxWindow, ds);
    var h := History(Recorded(ttl, maxWindow, ds), id);
    if h != [] {
      StatsOfFullHistory(sqrt, h, maxWindow, now, window);
    }
  }

  // ---- What a committed offset means -----------------------------------------

  function Commits(ttl: int, maxWindow: int, ds: seq<Delivery>, i: nat): bool
    requires i < |ds|
  {
    Handle(Run(ttl, maxWindow, ds[..i]), ttl, maxWindow, ds[i].msg, ds[i].now, ds[i].up).1
  }

  ghost predicate Settled(st: State, msg: Message) {
    || (exists stage :: (msg, stage) in st.deadLetters)
    || (msg.Telemetry? && msg.event in st.raw && msg.event in st.processed)
  }

  /** An earlier copy's claim is still in force when delivery i arrives. */
  ghost predicate Superseded(ds: seq<Delivery>, i: nat, ttl: int)
    requires i < |ds|
  {
    exists j :: 0 <= j < i && SameId(ds, j, i) && ds[i].now < ds[j].now + ttl
  }

  lemma SettledGrows(st: State, ttl: int, maxWindow: int, d: Delivery, msg: Message)
    requires Settled(st, msg)
    ensures Settled(Handle(st, ttl, maxWindow, d.msg, d.now, d.up).0, msg)
  {
  }

  lemma CommitSettles(st: State, ttl: int, maxWindow: int, d: Delivery)
    requires var r := Handle(st, ttl, maxWindow, d.msg, d.now, d.up); r.1
    ensures Settled(Handle(st, ttl, maxWindow, d.msg, d.now, d.up).0, d.msg)
            || (d.msg.Telemetry? && !IsFree(st.claims, d.msg.event.eventId, d.now))
  {
    if d.msg.Malformed? {
      LandedHas((d.msg, Unmarshal), d.up.deadLetter);
    } else {
      LandsInEach(d.msg, d.up);
    }
  }

  /** Each store and topic holds what landed there. */
  lemma LandsInEach(msg: Message, up: Health)
    requires msg.Telemetry?
    ensures msg.event in Landed(msg.event, up.influx) <==> up.influx.Landings() > 0
    ensures msg.event in Landed(msg.event, up.publish) <==> up.publish.Landings() > 0
    ensures forall stage: Stage :: (msg, stage) in Landed((msg, stage), up.deadLetter) <==> up.deadLetter.Landings() > 0
  {
    LandedHas(msg.event, up.influx);
    LandedHas(msg.event, up.publish);
    forall stage: Stage
      ensures (msg, stage) in Landed((msg, stage), up.deadLetter) <==> up.deadLetter.Landings() > 0
    {
      LandedHas((msg, stage), up.deadLetter);
    }
  }

  /** Every committed message ends up written and republished, or dead-lettered, or was a
      copy of an id that an earlier delivery had claimed. */
  lemma {:induction false} CommittedIsSettled(ttl: int, maxWindow: int, ds: seq<Delivery>, i: nat)
    requires i < |ds| && Commits(ttl, maxWindow, ds, i)
    ensures Settled(Run(ttl, maxWindow, ds), ds[i].msg) || Superseded(ds, i, ttl)
    decreases |ds|
  {
    hide Handle, Settled;
    var n := |ds| - 1;
    if i < n {
      assert ds[..n][..i] == ds[..i];
      CommittedIsSettled(ttl, maxWindow, ds[..n], i);
      if Settled(Run(ttl, maxWindow, ds[..n]), ds[i].msg) {
        SettledGrows(Run(ttl, maxWindow, ds[..n]), ttl, maxWindow, ds[n], ds[i].msg);
      } else {
        var j :| 0 <= j < i && SameId(ds[..n], j, i) && ds[i].now < ds[j].now + ttl;
        assert SameId(ds, j, i);
      }
    } else {
      CommitSettles(Run(ttl, maxWindow, ds[..n]), ttl, maxWindow, ds[n]);
      RunClaims(ttl, maxWindow, ds[..n]);
      if !Settled(Run(ttl, maxWindow, ds), ds[n].msg) {
        var id := ds[n].msg.event.eventId;
        var j :| 0 <= j < n && ds[..n][j].msg.Telemetry? && ds[..n][j].msg.event.eventId == id
                 && Run(ttl, maxWindow, ds[..n]).claims[id] == ds[..n][j].now + ttl;
        assert SameId(ds, j, n);
      }
    }
  }

  // ---- Which events are lost -------------------------------------------------

  /** Delivery i carries a copy of the id, and its claim takes effect if the id is free. */
  ghost predicate Reaches(ds: seq<Delivery>, i: nat, id: string) {
    i < |ds| && ds[i].msg.Telemetry? && ds[i].msg.event.eventId == id && !ds[i].up.dedup.Unreachable?
  }

  /** When the claim on an id expires: the last copy to reach the claim store while no claim was in force renewed it. */
  function Expiry(ttl: int, ds: seq<Delivery>, id: string): Option<int> {
    if ds == [] then None
    else
      var d, before := ds[|ds|-1], Expiry(ttl, ds[..|ds|-1], id);
      if d.msg.Telemetry? && d.msg.event.eventId == id && !d.up.dedup.Unreachable? && !Lasts(before, d.now) then Some(d.now + ttl)
      else before
  }

  predicate Lasts(expiry: Option<int>, now: int) {
    expiry.Some? && now < expiry.value
  }

  /** Delivery i arrives while a claim on its id is in force. */
  predicate InForce(ttl: int, ds: seq<Delivery>, i: nat)
    requires i < |ds|
  {
    ds[i].msg.Telemetry? && Lasts(Expiry(ttl, ds[..i], ds[i].msg.event.eventId), ds[i].now)
  }

  /** Delivery i carries the event while no claim is in force, its own claim is answered, and its writes land. */
  predicate StoredAt(ttl: int, ds: seq<Delivery>, i: nat, e: Event) {
    i < |ds| && ds[i].msg == Telemetry(e) && !InForce(ttl, ds, i) && ds[i].up.dedup.Answered? && ds[i].up.Stores()
  }

  lemma {:induction false} RunExpiry(ttl: int, maxWindow: int, ds: seq<Delivery>, id: string)
    ensures var claims := Run(ttl, maxWindow, ds).claims;
            Expiry(ttl, ds, id) == if id in claims then Some(claims[id]) else None
  {
    hide Handle;
    if ds == [] {
    } else {
      var n := |ds| - 1;
      RunExpiry(ttl, maxWindow, ds[..n], id);
      ClaimsOfHandle(Run(ttl, maxWindow, ds[..n]), ttl, maxWindow, ds[n]);
    }
  }

  lemma FirstCopyWrites(st: State, maxWindow: int, e: Event, up: Health)
    requires e in st.processed ==> e in st.raw
    ensures var st' := HandleFirstCopy(st, maxWindow, e, up).0;
            && (Settled(st', Telemetry(e)) <==> Settled(st, Telemetry(e)) || up.Stores())
            && (e in st'.processed ==> e in st'.raw)
  {
    hide Arrive;
    var st' := HandleFirstCopy(st, maxWindow, e, up).0;
    LandsInEach(Telemetry(e), up);
    assert e in st'.raw <==> e in st.raw || up.influx.Landings() > 0;
    assert e in st'.processed <==> e in st.processed || (up.influx.Confirmed? && up.publish.Landings() > 0);
  }

  lemma OtherCopyWrites(st: State, maxWindow: int, other: Event, up: Health, e: Event)
    requires other != e
    ensures SameWrites(st, HandleFirstCopy(st, maxWindow, other, up).0, e)
  {
    hide Arrive;
  }

  ghost predicate SameWrites(st: State, st': State, e: Event) {
    && (e in st.raw <==> e in st'.raw) && (e in st.processed <==> e in st'.processed)
    && forall stage :: (Telemetry(e), stage) in st.deadLetters <==> (Telemetry(e), stage) in st'.deadLetters
  }

  /** Only a copy that finds no claim in force, and is told so, writes its event anywhere. */
  lemma HandleWrites(st: State, ttl: int, maxWindow: int, d: Delivery, e: Event)
    requires e in st.processed ==> e in st.raw
    ensures var st' := Handle(st, ttl, maxWindow, d.msg, d.now, d.up).0;
            && (e in st'.processed ==> e in st'.raw)
            && (Settled(st', Telemetry(e)) <==>
                  || Settled(st, Telemetry(e))
                  || (d.msg == Telemetry(e) && IsFree(st.claims, e.eventId, d.now) && d.up.dedup.Answered? && d.up.Stores()))
  {
    hide HandleFirstCopy;
    if d.msg.Telemetry? && d.up.dedup.Answered? && IsFree(st.claims, d.msg.event.eventId, d.now) {
      var claimed := st.(claims := st.claims[d.msg.event.eventId := d.now + ttl]);
      if d.msg.event == e {
        FirstCopyWrites(claimed, maxWindow, e, d.up);
      } else {
        OtherCopyWrites(claimed, maxWindow, d.msg.event, d.up, e);
      }
    }
  }

  /** Exactly which events end up stored, over every delivery sequence: an event is written and republished, or
      dead-lettered, if and only if some copy of it arrives with no claim in force, is told that it is the first, and
      its writes land. Nothing a copy meets while a claim is in force can make up for a claimed copy that was not stored. */
  lemma {:induction false} SettledIff(ttl: int, maxWindow: int, ds: seq<Delivery>, e: Event)
    ensures Settled(Run(ttl, maxWindow, ds), Telemetry(e)) <==> exists i: nat :: StoredAt(ttl, ds, i, e)
    ensures e in Run(ttl, maxWindow, ds).processed ==> e in Run(ttl, maxWindow, ds).raw
  {
    hide Handle, Settled, InForce;
    if ds == [] {
      NothingSettled(e);
    } else {
      var n := |ds| - 1;
      var st := Run(ttl, maxWindow, ds[..n]);
      SettledIff(ttl, maxWindow, ds[..n], e);
      HandleWrites(st, ttl, maxWindow, ds[n], e);
      FreeIff(ttl, maxWindow, ds);
      StoredStep(ttl, ds, e);
      assert StoredAt(ttl, ds, n, e) <==>
             ds[n].msg == Telemetry(e) && !InForce(ttl, ds, n) && ds[n].up.dedup.Answered? && ds[n].up.Stores();
      if i: nat :| StoredAt(ttl, ds, i, e) && i < n {
        assert StoredAt(ttl, ds[..n], i, e);
      }
      if i: nat :| StoredAt(ttl, ds[..n], i, e) {
        assert StoredAt(ttl, ds, i, e);
      }
    }
  }

  lemma NothingSettled(e: Event)
    ensures !Settled(EMPTY, Telemetry(e))
  {
  }

  /** The last delivery finds its id free exactly when no claim is in force. */
  lemma FreeIff(ttl: int, maxWindow: int, ds: seq<Delivery>)
    requires ds != []
    ensures var n := |ds| - 1;
            ds[n].msg.Telemetry? ==>
              (IsFree(Run(ttl, maxWindow, ds[..n]).claims, ds[n].msg.event.eventId, ds[n].now) <==> !InForce(ttl, ds, n))
  {
    hide Run, Expiry;
    var n := |ds| - 1;
    if ds[n].msg.Telemetry? {
      RunExpiry(ttl, maxWindow, ds[..n], ds[n].msg.event.eventId);
    }
  }

  lemma StoredStep(ttl: int, ds: seq<Delivery>, e: Event)
    requires ds != []
    ensures forall i: nat :: StoredAt(ttl, ds[..|ds|-1], i, e) <==> i < |ds| - 1 && StoredAt(ttl, ds, i, e)
  {
    hide Expiry;
    var n := |ds| - 1;
    forall i: nat
      ensures StoredAt(ttl, ds[..n], i, e) <==> i < n && StoredAt(ttl, ds, i, e)
    {
      if i < n {
        assert ds[..n][..i] == ds[..i];
        SameForce(ttl, ds[..n], ds, i);
      }
    }
  }

  /** Exactly which offsets are committed. */
  lemma CommitsIff(ttl: int, maxWindow: int, ds: seq<Delivery>, i: nat)
    requires i < |ds|
    ensures Commits(ttl, maxWindow, ds, i) <==>
              if ds[i].msg.Malformed? then ds[i].up.deadLetter.Confirmed?
              else ds[i].up.dedup.Answered? && (InForce(ttl, ds, i) || ds[i].up.Confirms())
  {
    hide Run, Arrive, InForce;
    var upTo := ds[..i+1];
    assert upTo[..i] == ds[..i] && upTo[i] == ds[i];
    FreeIff(ttl, maxWindow, upTo);
    SameForce(ttl, upTo, ds, i);
  }

  lemma SameForce(ttl: int, ds: seq<Delivery>, ds': seq<Delivery>, i: nat)
    requires i < |ds| && i < |ds'| && ds[..i] == ds'[..i] && ds[i] == ds'[i]
    ensures InForce(ttl, ds, i) <==> InForce(ttl, ds', i)
  {
  }

  /** A committed event is lost if and only if it was committed as a duplicate, on the strength of a claim in force,
      and every copy that arrived with none in force was left unanswered or unstored. */
  lemma CommittedIsLostIff(ttl: int, maxWindow: int, ds: seq<Delivery>, i: nat)
    requires i < |ds| && ds[i].msg.Telemetry? && Commits(ttl, maxWindow, ds, i)
    ensures !Settled(Run(ttl, maxWindow, ds), ds[i].msg) <==>
              && InForce(ttl, ds, i)
              && forall j: nat :: j < |ds| && ds[j].msg == ds[i].msg && !InForce(ttl, ds, j) ==>
                   !ds[j].up.dedup.Answered? || !ds[j].up.Stores()
  {
    hide Run, Settled, Commits, InForce;
    SettledIff(ttl, maxWindow, ds, ds[i].msg.event);
    CommitsIff(ttl, maxWindow, ds, i);
    if !InForce(ttl, ds, i) {
      assert StoredAt(ttl, ds, i, ds[i].msg.event);
    }
    if j: nat :| j < |ds| && ds[j].msg == ds[i].msg && !InForce(ttl, ds, j) && ds[j].up.dedup.Answered? && ds[j].up.Stores() {
      assert StoredAt(ttl, ds, j, ds[i].msg.event);
    }
  }

  // ---- Exactly what is written -----------------------------------------------

  /** Delivery i is told that it carries the first copy of its id: no claim is in force, and its own is answered. */
  predicate Taken(ttl: int, ds: seq<Delivery>, i: nat) {
    i < |ds| && ds[i].msg.Telemetry? && !InForce(ttl, ds, i) && ds[i].up.dedup.Answered?
  }

  /** The raw points written, in order: one delivery's landings after another's. */
  function RawOf(ttl: int, ds: seq<Delivery>): seq<Event> {
    if ds == [] then []
    else
      var n := |ds| - 1;
      RawOf(ttl, ds[..n]) + if Taken(ttl, ds, n) then Landed(ds[n].msg.event, ds[n].up.influx) else []
  }

  /** The events republished: those of taken deliveries whose raw write was confirmed. */
  function ProcessedOf(ttl: int, ds: seq<Delivery>): seq<Event> {
    if ds == [] then []
    else
      var n := |ds| - 1;
      ProcessedOf(ttl, ds[..n])
        + if Taken(ttl, ds, n) && ds[n].up.influx.Confirmed? then Landed(ds[n].msg.event, ds[n].up.publish) else []
  }

  /** Whether delivery i comes to a dead letter, and at which stage. */
  function FailedStage(ttl: int, ds: seq<Delivery>, i: nat): Option<Stage>
    requires i < |ds|
  {
    if ds[i].msg.Malformed? then Some(Unmarshal)
    else if !Taken(ttl, ds, i) then None
    else if !ds[i].up.influx.Confirmed? then Some(InfluxWrite)
    else if !ds[i].up.publish.Confirmed? then Some(RepublishProcessed)
    else None
  }

  function DeadLettersOf(ttl: int, ds: seq<Delivery>): seq<(Message, Stage)> {
    if ds == [] then []
    else
      var n := |ds| - 1;
      var stage := FailedStage(ttl, ds, n);
      DeadLettersOf(ttl, ds[..n]) + if stage.Some? then Landed((ds[n].msg, stage.value), ds[n].up.deadLetter) else []
  }

  lemma WritesOfHandle(st: State, ttl: int, maxWindow: int, d: Delivery)
    ensures var st' := Handle(st, ttl, maxWindow, d.msg, d.now, d.up).0;
            var taken := d.msg.Telemetry? && IsFree(st.claims, d.msg.event.eventId, d.now) && d.up.dedup.Answered?;
            && st'.raw == st.raw + (if taken then Landed(d.msg.event, d.up.influx) else [])
            && st'.processed == st.processed
                 + (if taken && d.up.influx.Confirmed? then Landed(d.msg.event, d.up.publish) else [])
            && st'.deadLetters == st.deadLetters
                 + (if d.msg.Malformed? then Landed((d.msg, Unmarshal), d.up.deadLetter)
                    else if taken && !d.up.influx.Confirmed? then Landed((d.msg, InfluxWrite), d.up.deadLetter)
                    else if taken && !d.up.publish.Confirmed? then Landed((d.msg, RepublishProcessed), d.up.deadLetter)
                    else [])
  {
    hide Arrive, Landed;
  }

  /** Over every delivery sequence, both stores and the dead-letter topic hold exactly what the taken and the malformed
      deliveries landed there, in order: nothing else is written, and no healthy event is dead-lettered. */
  lemma {:induction false} RunWrites(ttl: int, maxWindow: int, ds: seq<Delivery>)
    ensures var st := Run(ttl, maxWindow, ds);
            st.raw == RawOf(ttl, ds) && st.processed == ProcessedOf(ttl, ds) && st.deadLetters == DeadLettersOf(ttl, ds)
  {
    hide Handle, InForce, Landed, IsFree;
    if ds == [] {
    } else {
      var n := |ds| - 1;
      RunWrites(ttl, maxWindow, ds[..n]);
      WritesOfHandle(Run(ttl, maxWindow, ds[..n]), ttl, maxWindow, ds[n]);
      FreeIff(ttl, maxWindow, ds);
    }
  }

  /** How many copies of an event the deliveries landed in the raw store, and in the processed topic. */
  function RawLandings(ttl: int, ds: seq<Delivery>, e: Event): nat {
    if ds == [] then 0
    else
      var n := |ds| - 1;
      RawLandings(ttl, ds[..n], e) + if Taken(ttl, ds, n) && ds[n].msg.event == e then ds[n].up.influx.Landings() else 0
  }

  function ProcessedLandings(ttl: int, ds: seq<Delivery>, e: Event): nat {
    if ds == [] then 0
    else
      var n := |ds| - 1;
      ProcessedLandings(ttl, ds[..n], e)
        + if Taken(ttl, ds, n) && ds[n].msg.event == e && ds[n].up.influx.Confirmed? then ds[n].up.publish.Landings() else 0
  }

  /** The number of copies written is the sum of the landings over the deliveries that were taken. */
  lemma {:induction false} CopiesWritten(ttl: int, maxWindow: int, ds: seq<Delivery>, e: Event)
    ensures multiset(Run(ttl, maxWindow, ds).raw)[e] == RawLandings(ttl, ds, e)
    ensures multiset(Run(ttl, maxWindow, ds).processed)[e] == ProcessedLandings(ttl, ds, e)
  {
    hide Run, InForce, Landed;
    RunWrites(ttl, maxWindow, ds);
    if ds == [] {
    } else {
      var n := |ds| - 1;
      CopiesWritten(ttl, maxWindow, ds[..n], e);
      RunWrites(ttl, maxWindow, ds[..n]);
      if Taken(ttl, ds, n) {
        LandedCount(ds[n].msg.event, ds[n].up.influx, e);
        LandedCount(ds[n].msg.event, ds[n].up.publish, e);
      } else {
        assert RawOf(ttl, ds) == RawOf(ttl, ds[..n]) && ProcessedOf(ttl, ds) == ProcessedOf(ttl, ds[..n]);
      }
    }
  }

  /** An event is dead-lettered after its raw write if and only if some copy of it was taken, the write was not confirmed,
      and a dead letter landed; likewise after its republication; a malformed payload whenever a dead letter landed. */
  lemma {:induction false} DeadLetteredIff(ttl: int, maxWindow: int, ds: seq<Delivery>, msg: Message, stage: Stage)
    ensures (msg, stage) in Run(ttl, maxWindow, ds).deadLetters <==>
              exists i: nat :: i < |ds| && ds[i].msg == msg && FailedStage(ttl, ds, i) == Some(stage)
                               && ds[i].up.deadLetter.Landings() > 0
  {
    hide Run, Landed, FailedStage;
    RunWrites(ttl, maxWindow, ds);
    if ds == [] {
    } else {
      var n := |ds| - 1;
      RunWrites(ttl, maxWindow, ds[..n]);
      DeadLetteredIff(ttl, maxWindow, ds[..n], msg, stage);
      forall i: nat | i < n
        ensures FailedStage(ttl, ds[..n], i) == FailedStage(ttl, ds, i)
      {
        SameStage(ttl, ds[..n], ds, i);
      }
      var last := FailedStage(ttl, ds, n);
      if last.Some? {
        LandedHas((ds[n].msg, last.value), ds[n].up.deadLetter);
      }
    }
  }

  lemma SameStage(ttl: int, ds: seq<Delivery>, ds': seq<Delivery>, i: nat)
    requires i < |ds| && i < |ds'| && ds[i] == ds'[i] && ds[..i] == ds'[..i]
    ensures FailedStage(ttl, ds, i) == FailedStage(ttl, ds', i)
  {
    hide Expiry;
    SameForce(ttl, ds, ds', i);
  }

  /** In particular nothing is dead-lettered when every write is confirmed and every payload parses. */
  lemma HealthyRunHasNoDeadLetters(ttl: int, maxWindow: int, ds: seq<Delivery>)
    requires forall i :: 0 <= i < |ds| ==> ds[i].msg.Telemetry? && ds[i].up.influx.Confirmed? && ds[i].up.publish.Confirmed?
    ensures Run(ttl, maxWindow, ds).deadLetters == []
  {
    hide Run, InForce;
    var dead := Run(ttl, maxWindow, ds).deadLetters;
    if dead != [] {
      assert (dead[0].0, dead[0].1) in dead;
      DeadLetteredIff(ttl, maxWindow, ds, dead[0].0, dead[0].1);
    }
  }

  /** The key kept for a series is that of its first recorded event. */
  lemma {:induction false} KeysAreFirst(ttl: int, maxWindow: int, ds: seq<Delivery>)
    ensures KeptFrom(Run(ttl, maxWindow, ds).keys, Recorded(ttl, maxWindow, ds))
  {
    hide Handle, KeptFrom, Run;
    if ds == [] {
      assert Run(ttl, maxWindow, ds) == EMPTY by { RunsNothing(ttl, maxWindow); }
      NothingKept();
    } else {
      var n := |ds| - 1;
      var st, es := Run(ttl, maxWindow, ds[..n]), Recorded(ttl, maxWindow, ds[..n]);
      KeysAreFirst(ttl, maxWindow, ds[..n]);
      assert Run(ttl, maxWindow, ds) == Handle(st, ttl, maxWindow, ds[n].msg, ds[n].now, ds[n].up).0 by {
        RunsOne(ttl, maxWindow, ds);
      }
      KeysOfHandle(st, ttl, maxWindow, ds[n]);
      if IsRecorded(st, ds[n]) {
        KeptStep(st.keys, es, ds[n].msg.event);
      } else {
        assert Recorded(ttl, maxWindow, ds) == es;
      }
    }
  }

  lemma RunsNothing(ttl: int, maxWindow: int)
    ensures Run(ttl, maxWindow, []) == EMPTY
  {
  }

  lemma RunsOne(ttl: int, maxWindow: int, ds: seq<Delivery>)
    requires ds != []
    ensures var n := |ds| - 1;
            Run(ttl, maxWindow, ds) == Handle(Run(ttl, maxWindow, ds[..n]), ttl, maxWindow, ds[n].msg, ds[n].now, ds[n].up).0
  {
  }

  lemma NothingKept()
    ensures KeptFrom(map[], [])
  {
  }

  lemma KeysOfHandle(st: State, ttl: int, maxWindow: int, d: Delivery)
    ensures var keys := Handle(st, ttl, maxWindow, d.msg, d.now, d.up).0.keys;
            if IsRecorded(st, d) && d.msg.event.key.Id() !in st.keys then keys == st.keys[d.msg.event.key.Id() := d.msg.event.key]
            else keys == st.keys
  {
    hide Arrive, Landed;
  }

  lemma KeptStep(keys: map<string, SeriesKey>, es: seq<Event>, e: Event)
    requires KeptFrom(keys, es)
    ensures KeptFrom(if e.key.Id() in keys then keys else keys[e.key.Id() := e.key], es + [e])
  {
    hide SeriesKey.Id;
    var id, es' := e.key.Id(), es + [e];
    var keys' := if id in keys then keys else keys[id := e.key];
    forall i | i in keys'
      ensures exists k :: 0 <= k < |es'| && es'[k].key == keys'[i] && es'[k].key.Id() == i
                          && forall j :: 0 <= j < k ==> es'[j].key.Id() != i
    {
      if i in keys {
        var k :| 0 <= k < |es| && es[k].key == keys[i] && es[k].key.Id() == i && forall j :: 0 <= j < k ==> es[j].key.Id() != i;
        assert es'[k] == es[k];
      } else {
        assert es'[|es|] == e;
      }
    }
  }

  ghost predicate KeptFrom(keys: map<string, SeriesKey>, es: seq<Event>) {
    && (forall id :: id in keys ==> exists i :: 0 <= i < |es| && es[i].key == keys[id] && es[i].key.Id() == id
                                                && forall j :: 0 <= j < i ==> es[j].key.Id() != id)
    && (forall i :: 0 <= i < |es| ==> es[i].key.Id() in keys)
  }

  // ---- Within one lifetime ---------------------------------------------------

  /** Delivery i carries the event, and is the first copy of its id to reach the claim store. */
  ghost predicate FirstClaim(ds: seq<Delivery>, i: nat, e: Event) {
    && Reaches(ds, i, e.eventId) && ds[i].msg == Telemetry(e)
    && forall j: nat :: j < i ==> !Reaches(ds, j, e.eventId)
  }

  /** The first claiming copy is handled through to the stores. */
  ghost predicate FirstClaimStores(ds: seq<Delivery>, e: Event) {
    exists i: nat :: FirstClaim(ds, i, e) && ds[i].up.dedup.Answered? && ds[i].up.Stores()
  }

  /** Every copy of the event's id carries the event. */
  ghost predicate OnePayload(ds: seq<Delivery>, e: Event) {
    forall i :: 0 <= i < |ds| && ds[i].msg.Telemetry? && ds[i].msg.event.eventId == e.eventId ==> ds[i].msg.event == e
  }

  ghost predicate ClaimedIds(claims: map<string, int>, ds: seq<Delivery>) {
    forall id :: id in claims <==> exists i: nat :: Reaches(ds, i, id)
  }

  lemma {:induction false} RunClaimedIds(ttl: int, maxWindow: int, ds: seq<Delivery>)
    ensures ClaimedIds(Run(ttl, maxWindow, ds).claims, ds)
  {
    hide Handle;
    if ds == [] {
    } else {
      var n := |ds| - 1;
      RunClaimedIds(ttl, maxWindow, ds[..n]);
      ClaimsOfHandle(Run(ttl, maxWindow, ds[..n]), ttl, maxWindow, ds[n]);
      ClaimedIdsStep(Run(ttl, maxWindow, ds[..n]).claims, Run(ttl, maxWindow, ds).claims, ds);
    }
  }

  lemma ClaimedIdsStep(before: map<string, int>, after: map<string, int>, ds: seq<Delivery>)
    requires ds != [] && ClaimedIds(before, ds[..|ds|-1])
    requires var d := ds[|ds|-1];
             after.Keys == before.Keys + if d.msg.Telemetry? && !d.up.dedup.Unreachable? then {d.msg.event.eventId} else {}
    ensures ClaimedIds(after, ds)
  {
    var n := |ds| - 1;
    forall id
      ensures id in after <==> exists i: nat :: Reaches(ds, i, id)
    {
      assert forall i: nat :: i < n ==> (Reaches(ds[..n], i, id) <==> Reaches(ds, i, id));
      assert Reaches(ds, n, id) ==> id in after;
      if i: nat :| Reaches(ds[..n], i, id) {
        assert Reaches(ds, i, id);
      }
    }
  }

  /** While no claim expires, a claim is in force exactly when an earlier copy has reached the claim store. */
  lemma InForceIffReached(ttl: int, ds: seq<Delivery>, i: nat)
    requires i < |ds| && ds[i].msg.Telemetry? && Unexpired(ds, ttl)
    ensures InForce(ttl, ds, i) <==> exists j: nat :: j < i && Reaches(ds, j, ds[i].msg.event.eventId)
  {
    hide Run, InForce, IsFree;
    var upTo, id := ds[..i+1], ds[i].msg.event.eventId;
    assert upTo[..i] == ds[..i] && upTo[i] == ds[i];
    UnexpiredSlice(ds, ttl, i + 1);
    ClaimedStaysClaimed(ttl, 0, upTo);
    FreeIff(ttl, 0, upTo);
    SameForce(ttl, upTo, ds, i);
    RunClaimedIds(ttl, 0, ds[..i]);
    assert forall j: nat :: j < i ==> (Reaches(ds[..i], j, id) <==> Reaches(ds, j, id));
  }

  lemma UnexpiredSlice(ds: seq<Delivery>, ttl: int, n: nat)
    requires n <= |ds| && Unexpired(ds, ttl)
    ensures Unexpired(ds[..n], ttl)
  {
    forall i, j | 0 <= i < j < n && SameId(ds[..n], i, j)
      ensures ds[..n][j].now < ds[..n][i].now + ttl
    {
      assert SameId(ds, i, j);
    }
  }

  /** While no claim expires, one delivery decides: the first whose claim took effect. */
  lemma SettledWithinLifetime(ttl: int, maxWindow: int, ds: seq<Delivery>, e: Event)
    requires Unexpired(ds, ttl) && OnePayload(ds, e)
    ensures Settled(Run(ttl, maxWindow, ds), Telemetry(e)) <==> FirstClaimStores(ds, e)
  {
    hide Run, Settled, InForce, Unexpired;
    SettledIff(ttl, maxWindow, ds, e);
    forall i: nat
      ensures StoredAt(ttl, ds, i, e) <==> FirstClaim(ds, i, e) && ds[i].up.dedup.Answered? && ds[i].up.Stores()
    {
      if i < |ds| && ds[i].msg == Telemetry(e) {
        InForceIffReached(ttl, ds, i);
      }
    }
  }

  // ---- A loss and a recovery -------------------------------------------------

  /** The price of claiming first: a copy held back by a double failure makes its own redelivery
      a duplicate, which is committed although the event reached neither store nor topic. */
  lemma HeldEventIsLost(ttl: int, maxWindow: int, e: Event, now: int)
    requires ttl > 0
    ensures var held := Delivery(Telemetry(e), now, Health(Answered, Unconfirmed(0), Confirmed(0), Unconfirmed(0)));
            var again := Delivery(Telemetry(e), now, HEALTHY);
            var ds := [held, again];
            && !Commits(ttl, maxWindow, ds, 0) && Commits(ttl, maxWindow, ds, 1)
            && Recorded(ttl, maxWindow, ds) == [] && !Settled(Run(ttl, maxWindow, ds), Telemetry(e))
  {
    var held := Delivery(Telemetry(e), now, Health(Answered, Unconfirmed(0), Confirmed(0), Unconfirmed(0)));
    var again := Delivery(Telemetry(e), now, HEALTHY);
    var ds := [held, again];
    assert ds[..1] == [held] && [held][..0] == [] && ds[..0] == [];
    var st := EMPTY.(claims := map[e.eventId := now + ttl]);
    assert Handle(EMPTY, ttl, maxWindow, held.msg, now, held.up) == (st, false);
    assert Handle(st, ttl, maxWindow, again.msg, now, again.up) == (st, true);
    assert Run(ttl, maxWindow, [held]) == st && Run(ttl, maxWindow, ds) == st;
    assert Recorded(ttl, maxWindow, [held]) == [];
  }

  /** The same two deliveries lose nothing in the end if a third arrives when the claim has expired. */
  lemma ExpiryRecovers(ttl: int, maxWindow: int, e: Event, now: int)
    requires ttl > 0
    ensures var held := Delivery(Telemetry(e), now, Health(Answered, Unconfirmed(0), Confirmed(0), Unconfirmed(0)));
            var ds := [held, Delivery(Telemetry(e), now, HEALTHY), Delivery(Telemetry(e), now + ttl, HEALTHY)];
            Settled(Run(ttl, maxWindow, ds), Telemetry(e)) && Commits(ttl, maxWindow, ds, 2)
  {
    hide Run, Settled, Commits;
    var held := Delivery(Telemetry(e), now, Health(Answered, Unconfirmed(0), Confirmed(0), Unconfirmed(0)));
    var ds := [held, Delivery(Telemetry(e), now, HEALTHY), Delivery(Telemetry(e), now + ttl, HEALTHY)];
    assert ds[..2][..1] == [held] && ds[..2][1] == ds[1] && [held][..0] == [];
    assert Expiry(ttl, [held], e.eventId) == Some(now + ttl);
    assert Expiry(ttl, ds[..2], e.eventId) == Some(now + ttl);
    assert StoredAt(ttl, ds, 2, e);
    SettledIff(ttl, maxWindow, ds, e);
    CommitsIff(ttl, maxWindow, ds, 2);
  }
}
