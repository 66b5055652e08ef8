/**
 The anomaly detector's state and the claim that guards it (services/anomaly-detector/main.py,
 idempotency.py, featurestore.py, and StatisticalTrackers of stats.py).

 Detector state lives in one process and dies with it; the ledger of claimed event
 ids is shared and durable.
 */
module Detector {
  import opened Wrappers
  import opened Dependencies
  import Ewma
  import IsolationForest
  import SeriesIds

  /** What the catalog knows of a device: its machine type and that type's metrics in order. */
  datatype DeviceInfo = DeviceInfo(machineType: string, featureOrder: seq<string>)

  datatype Event = Event(id: string, device: string, metric: string, value: real)

  /** An event together with the catalog's answer at the time it is handled. */
  datatype Reading = Reading(event: Event, info: Option<DeviceInfo>)

  type Vector = seq<real>

  datatype Local = Local(trackers: map<string, Ewma.Baseline>,
                         latest: map<string, map<string, real>>,
                         training: map<string, seq<Vector>>)

  const FRESH := Local(map[], map[], map[])

  // ---- Feature vectors -------------------------------------------------------

  function Get<K, V>(m: map<K, V>, k: K, default: V): V {
    if k in m then m[k] else default
  }

  /** The values in order, or None while one of the metrics is still missing. */
  function Assemble(values: map<string, real>, order: seq<string>): Option<Vector> {
    if order == [] then Some([])
    else
      var n := |order| - 1;
      var front := Assemble(values, order[..n]);
      if front.Some? && order[n] in values then Some(front.value + [values[order[n]]]) else None
  }

  /** The last n elements; none when n is not positive. */
  function LastOf<T>(s: seq<T>, n: int): seq<T> {
    if n <= 0 then [] else if |s| <= n then s else s[|s| - n..]
  }

  /** What is kept is the end of the sequence, and as much of it as n allows. */
  lemma LastOfIs<T>(s: seq<T>, n: int)
    ensures |LastOf(s, n)| == if n <= 0 then 0 else if |s| <= n then |s| else n
    ensures s == s[..|s| - |LastOf(s, n)|] + LastOf(s, n)
  {
  }

  /** What observing one reading of a known device does. */
  function Observe(l: Local, bufferSize: int, e: Event, info: DeviceInfo): (Local, Option<Vector>) {
    var values := Get(l.latest, e.device, map[])[e.metric := e.value];
    var seen := l.(latest := l.latest[e.device := values]);
    var vector := if info.featureOrder == [] then None else Assemble(values, info.featureOrder);
    if vector.None? then (seen, None)
    else
      var buffer := LastOf(Get(l.training, info.machineType, []) + [vector.value], bufferSize);
      (seen.(training := l.training[info.machineType := buffer]), vector)
  }

  class FeatureStore {
    var latest: map<string, map<string, real>>
    var training: map<string, seq<Vector>>
    const bufferSize: int

    constructor (bufferSize: int)
      ensures latest == map[] && training == map[] && this.bufferSize == bufferSize
    {
      latest, training := map[], map[];
      this.bufferSize := bufferSize;
    }

    method Record(e: Event, info: DeviceInfo) returns (vector: Option<Vector>)
      modifies this
      ensures forall trackers :: (Local(trackers, latest, training), vector)
                == Observe(Local(trackers, old(latest), old(training)), bufferSize, e, info)
    {
      var values := Get(latest, e.device, map[])[e.metric := e.value];
      latest := latest[e.device := values];
      if info.featureOrder == [] {
        return None;
      }
      var v := [];
      for i := 0 to |info.featureOrder|
        invariant Assemble(values, info.featureOrder[..i]) == Some(v)
      {
        var m := info.featureOrder[i];
        assert info.featureOrder[..i+1][..i] == info.featureOrder[..i];
        if m !in values {
          MissingMetric(values, info.featureOrder, i);
          return None;
        }
        v := v + [values[m]];
      }
      assert info.featureOrder[..|info.featureOrder|] == info.featureOrder;
      var buffer := Get(training, info.machineType, []) + [v];
      if |buffer| > bufferSize {
        buffer := if bufferSize > 0 then buffer[|buffer| - bufferSize..] else [];
      }
      training := training[info.machineType := buffer];
      return Some(v);
    }
  }

  lemma {:induction false} MissingMetric(values: map<string, real>, order: seq<string>, i: nat)
    requires i < |order| && order[i] !in values
    ensures Assemble(values, order).None?
  {
    if i == |order| - 1 {
    } else {
      MissingMetric(values, order[..|order|-1], i);
    }
  }

  // ---- Folding one reading ---------------------------------------------------

  function SeriesId(e: Event): string {
    SeriesIds.SeriesId(e.device, e.metric)
  }

  function Track(l: Local, alpha: real, e: Event): Local {
    l.(trackers := l.trackers[SeriesId(e) := Ewma.Fold(alpha, Get(l.trackers, SeriesId(e), Ewma.Fresh), e.value)])
  }

  function ObserveKnown(l: Local, bufferSize: int, r: Reading): Local {
    if r.info.None? then l else Observe(l, bufferSize, r.event, r.info.value).0
  }

  /** The whole effect of one claimed reading on detector state. */
  function Absorb(l: Local, alpha: real, bufferSize: int, r: Reading): Local {
    ObserveKnown(Track(l, alpha, r.event), bufferSize, r)
  }

  class StatisticalTrackers {
    var trackers: map<string, Ewma.EwmaTracker>
    const alpha: real

    ghost predicate Valid()
      reads this, trackers.Values
    {
      && (forall id :: id in trackers ==> trackers[id].alpha == alpha)
      && (forall i, j :: i in trackers && j in trackers && i != j ==> trackers[i] != trackers[j])
    }

    ghost function View(): map<string, Ewma.Baseline>
      reads this, trackers.Values
    {
      map id | id in trackers :: trackers[id].View()
    }

    constructor (alpha: real)
      ensures Valid() && View() == map[] && this.alpha == alpha && trackers == map[]
    {
      trackers := map[];
      this.alpha := alpha;
    }

    method Update(e: Event, sqrt: real -> real) returns (zScore: real, count: nat)
      requires Valid()
      modifies this, trackers.Values
      ensures Valid() && fresh(trackers.Values - old(trackers.Values))
      ensures View() == old(View())[SeriesId(e) := Ewma.Fold(alpha, Get(old(View()), SeriesId(e), Ewma.Fresh), e.value)]
      ensures zScore == Ewma.ZScore(sqrt, Get(old(View()), SeriesId(e), Ewma.Fresh), e.value)
      ensures count == Ewma.SampleCount(View()[SeriesId(e)])
    {
      hide Ewma.Fold, Ewma.ZScore, Ewma.EwmaTracker.View;
      var tracker := Find(SeriesId(e));
      assert tracker.View() == View()[SeriesId(e)] == Get(old(View()), SeriesId(e), Ewma.Fresh);
      label found:
      zScore, count := tracker.Update(e.value, sqrt);
      assert forall i :: i in trackers && i != SeriesId(e) ==> trackers[i].View() == old@found(trackers[i].View());
    }

    method Find(id: string) returns (tracker: Ewma.EwmaTracker)
      requires Valid()
      modifies this
      ensures Valid() && fresh(trackers.Values - old(trackers.Values))
      ensures id in trackers && trackers[id] == tracker
      ensures View() == if id in old(View()) then old(View()) else old(View())[id := Ewma.Fresh]
    {
      if id in trackers {
        return trackers[id];
      }
      tracker := new Ewma.EwmaTracker(alpha);
      trackers := trackers[id := tracker];
    }
  }

  // ---- One message -----------------------------------------------------------

  datatype Message = Malformed | Telemetry(reading: Reading)

  /** What the detectors are given besides the value: its z-score, the sample count, and the vector if there is one. */
  datatype Judged = Judged(zScore: real, count: nat, vector: Option<Vector>)

  /** How the calls made for one message go, whether the detectors fire on what they are given, and the fresh id drawn
      for the anomaly. */
  datatype Weather = Weather(ledger: Claiming, fires: Judged -> bool, anomalyId: string, publish: Report, deadLetter: Report)

  datatype Anomaly = Anomaly(anomalyId: string, eventId: string)

  /** Where a dead-lettered message failed. */
  datatype Stage = Unmarshal | PublishAnomaly

  /** Shared, durable: claimed ids, the anomaly topic, and the dead-letter topic. */
  datatype Shared = Shared(ledger: set<string>, topic: seq<Anomaly>, deadLetters: seq<(Message, Stage)>)

  function SendToDeadLetter(s: Shared, msg: Message, stage: Stage, w: Weather): (Shared, bool) {
    (s.(deadLetters := s.deadLetters + Landed((msg, stage), w.deadLetter)), w.deadLetter.Confirmed?)
  }

  /** What tracker and store return for a reading, as they stand when it arrives. */
  function Judge(l: Local, alpha: real, bufferSize: int, sqrt: real -> real, r: Reading): Judged {
    var b := Get(l.trackers, SeriesId(r.event), Ewma.Fresh);
    Judged(Ewma.ZScore(sqrt, b, r.event.value), Ewma.SampleCount(Ewma.Fold(alpha, b, r.event.value)),
           if r.info.None? then None else Observe(Track(l, alpha, r.event), bufferSize, r.event, r.info.value).1)
  }

  function Announce(s: Shared, r: Reading, j: Judged, w: Weather): (Shared, bool) {
    if !w.fires(j) then (s, true)
    else
      var announced := s.(topic := s.topic + Landed(Anomaly(w.anomalyId, r.event.id), w.publish));
      if w.publish.Confirmed? then (announced, true) else SendToDeadLetter(announced, Telemetry(r), PublishAnomaly, w)
  }

  /** New shared state, new detector state, and whether the offset is committed. */
  function Handle(s: Shared, l: Local, alpha: real, bufferSize: int, sqrt: real -> real, msg: Message, w: Weather)
    : (Shared, Local, bool)
  {
    match msg
    case Malformed =>
      var (s', commit) := SendToDeadLetter(s, msg, Unmarshal, w);
      (s', l, commit)
    case Telemetry(r) =>
      var claimed := if w.ledger.Unreachable? then s else s.(ledger := s.ledger + {r.event.id});
      if !w.ledger.Answered? then (claimed, l, false)
      else if r.event.id in s.ledger then (s, l, true)
      else
        var (s', commit) := Announce(claimed, r, Judge(l, alpha, bufferSize, sqrt, r), w);
        (s', Absorb(l, alpha, bufferSize, r), commit)
  }

  class Ledger {
    var keys: set<string>

    constructor ()
      ensures keys == {}
    {
      keys := {};
    }

    /** Insert, on conflict do nothing, returning whether a row was inserted. */
    method ClaimOnce(id: string) returns (first: bool)
      modifies this
      ensures first == (id !in old(keys)) && keys == old(keys) + {id}
    {
      first := id !in keys;
      keys := keys + {id};
    }
  }

  class Service {
    const ledger: Ledger
    const trackers: StatisticalTrackers
    const features: FeatureStore
    var topic: seq<Anomaly>
    var deadLetters: seq<(Message, Stage)>

    ghost predicate Valid()
      reads this, trackers, trackers.trackers.Values
    {
      trackers.Valid()
    }

    ghost function SharedView(): Shared
      reads this, ledger
    {
      Shared(ledger.keys, topic, deadLetters)
    }

    ghost function LocalView(): Local
      reads trackers, trackers.trackers.Values, features
    {
      Local(trackers.View(), features.latest, features.training)
    }

    constructor (ledger: Ledger, alpha: real, bufferSize: int)
      ensures Valid() && LocalView() == FRESH && SharedView() == Shared(ledger.keys, [], [])
      ensures this.ledger == ledger && trackers.alpha == alpha && features.bufferSize == bufferSize
    {
      this.ledger := ledger;
      trackers := new StatisticalTrackers(alpha);
      features := new FeatureStore(bufferSize);
      topic, deadLetters := [], [];
    }

    method ProcessMessage(msg: Message, w: Weather, sqrt: real -> real) returns (commit: bool)
      requires Valid()
      modifies this, ledger, trackers, trackers.trackers.Values, features
      ensures Valid() && fresh(trackers.trackers.Values - old(trackers.trackers.Values))
      ensures (SharedView(), LocalView(), commit)
           == Handle(old(SharedView()), old(LocalView()), trackers.alpha, features.bufferSize, sqrt, msg, w)
    {
      hide Ewma.Fold, Ewma.ZScore, Ewma.SampleCount, Observe, Announce, StatisticalTrackers.View, StatisticalTrackers.Valid;
      if msg.Malformed? {
        commit := WriteDeadLetter(msg, Unmarshal, w);
        return;
      }
      if w.ledger.Unreachable? {
        return false;
      }
      var r := msg.reading;
      var claimed := ledger.ClaimOnce(r.event.id);
      if w.ledger.AnswerLost? {
        return false;
      }
      if !claimed {
        assert ledger.keys == old(ledger.keys);
        return true;
      }
      var zScore, count := trackers.Update(r.event, sqrt);
      var vector: Option<Vector> := None;
      if r.info.Some? {
        vector := features.Record(r.event, r.info.value);
      }
      commit := AnnounceAnomaly(r, Judged(zScore, count, vector), w);
    }

    method WriteDeadLetter(msg: Message, stage: Stage, w: Weather) returns (commit: bool)
      modifies this`deadLetters
      ensures (SharedView(), commit) == SendToDeadLetter(old(SharedView()), msg, stage, w)
    {
      deadLetters := deadLetters + Landed((msg, stage), w.deadLetter);
      return w.deadLetter.Confirmed?;
    }

    method AnnounceAnomaly(r: Reading, j: Judged, w: Weather) returns (commit: bool)
      modifies this`topic, this`deadLetters
      ensures (SharedView(), commit) == Announce(old(SharedView()), r, j, w)
    {
      if !w.fires(j) {
        return true;
      }
      topic := topic + Landed(Anomaly(w.anomalyId, r.event.id), w.publish);
      if w.publish.Confirmed? {
        return true;
      }
      commit := WriteDeadLetter(Telemetry(r), PublishAnomaly, w);
    }
  }

  // ---- One instance, no crash ------------------------------------------------

  datatype Delivery = Delivery(msg: Message, w: Weather)

  function Run(alpha: real, bufferSize: int, sqrt: real -> real, ds: seq<Delivery>): (Shared, Local) {
    if ds == [] then (Shared({}, [], []), FRESH)
    else
      var n := |ds| - 1;
      var (s, l) := Run(alpha, bufferSize, sqrt, ds[..n]);
      var (s', l', _) := Handle(s, l, alpha, bufferSize, sqrt, ds[n].msg, ds[n].w);
      (s', l')
  }

  /** Delivery i carries a reading and reaches the ledger. */
  predicate Claims(ds: seq<Delivery>, i: nat) {
    i < |ds| && ds[i].msg.Telemetry? && !ds[i].w.ledger.Unreachable?
  }

  /** Delivery i is the first of its id to reach the ledger. */
  predicate IsFirstCopy(ds: seq<Delivery>, i: nat) {
    Claims(ds, i) && forall j :: 0 <= j < i && Claims(ds, j) ==> ds[j].msg.reading.event.id != ds[i].msg.reading.event.id
  }

  /** The first copies whose claim was answered. One whose answer was lost is never absorbed. */
  function FirstCopies(ds: seq<Delivery>): seq<Reading> {
    if ds == [] then []
    else
      var n := |ds| - 1;
      FirstCopies(ds[..n]) + if IsFirstCopy(ds, n) && ds[n].w.ledger.Answered? then [ds[n].msg.reading] else []
  }

  function AbsorbAll(alpha: real, bufferSize: int, rs: seq<Reading>): Local {
    if rs == [] then FRESH else Absorb(AbsorbAll(alpha, bufferSize, rs[..|rs|-1]), alpha, bufferSize, rs[|rs|-1])
  }

  ghost predicate LedgerOf(ledger: set<string>, ds: seq<Delivery>) {
    forall id :: id in ledger <==> exists i: nat :: Claims(ds, i) && ds[i].msg.reading.event.id == id
  }

  lemma {:induction false} RunLedger(alpha: real, bufferSize: int, sqrt: real -> real, ds: seq<Delivery>)
    ensures LedgerOf(Run(alpha, bufferSize, sqrt, ds).0.ledger, ds)
  {
    hide Absorb;
    if ds == [] {
    } else {
      var n := |ds| - 1;
      RunLedger(alpha, bufferSize, sqrt, ds[..n]);
      var before, after := Run(alpha, bufferSize, sqrt, ds[..n]).0.ledger, Run(alpha, bufferSize, sqrt, ds).0.ledger;
      assert after == if Claims(ds, n) then before + {ds[n].msg.reading.event.id} else before;
      LedgerStep(before, after, ds);
    }
  }

  lemma LedgerStep(before: set<string>, after: set<string>, ds: seq<Delivery>)
    requires ds != [] && LedgerOf(before, ds[..|ds|-1])
    requires after == if Claims(ds, |ds| - 1) then before + {ds[|ds|-1].msg.reading.event.id} else before
    ensures LedgerOf(after, ds)
  {
  }

  /** The detector state is the fold over first copies only, whatever is redelivered or fails. */
  lemma {:induction false} StateIsFoldOfFirstCopies(alpha: real, bufferSize: int, sqrt: real -> real, ds: seq<Delivery>)
    ensures Run(alpha, bufferSize, sqrt, ds).1 == AbsorbAll(alpha, bufferSize, FirstCopies(ds))
  {
    hide Absorb;
    if ds == [] {
    } else {
      var n := |ds| - 1;
      StateIsFoldOfFirstCopies(alpha, bufferSize, sqrt, ds[..n]);
      RunLedger(alpha, bufferSize, sqrt, ds[..n]);
      assert forall i :: 0 <= i < n ==> (Claims(ds[..n], i) <==> Claims(ds, i)) && ds[..n][i] == ds[i];
      var rs := FirstCopies(ds[..n]);
      if Claims(ds, n) {
        NotInLedgerIff(Run(alpha, bufferSize, sqrt, ds[..n]).0.ledger, ds);
      }
      if IsFirstCopy(ds, n) && ds[n].w.ledger.Answered? {
        assert (rs + [ds[n].msg.reading])[..|rs|] == rs;
      } else {
        assert FirstCopies(ds) == rs;
      }
    }
  }

  lemma NotInLedgerIff(ledger: set<string>, ds: seq<Delivery>)
    requires ds != [] && Claims(ds, |ds| - 1) && LedgerOf(ledger, ds[..|ds|-1])
    ensures ds[|ds|-1].msg.reading.event.id !in ledger <==> IsFirstCopy(ds, |ds| - 1)
  {
  }

  // ---- What the folded state is ----------------------------------------------

  /** The values of one series, in order. */
  function ValuesOf(rs: seq<Reading>, series: string): seq<real> {
    if rs == [] then []
    else
      var e := rs[|rs|-1].event;
      ValuesOf(rs[..|rs|-1], series) + if SeriesId(e) == series then [e.value] else []
  }

  /** Each tracker is the baseline of its own series. */
  lemma {:induction false} TrackersAreBaselines(alpha: real, bufferSize: int, rs: seq<Reading>, series: string)
    ensures var trackers := AbsorbAll(alpha, bufferSize, rs).trackers;
            Get(trackers, series, Ewma.Fresh) == Ewma.Run(alpha, ValuesOf(rs, series))
  {
    hide Observe, Ewma.Fold;
    if rs == [] {
    } else {
      var n, e := |rs| - 1, rs[|rs|-1].event;
      TrackersAreBaselines(alpha, bufferSize, rs[..n], series);
      ObserveKeepsTrackers(Track(AbsorbAll(alpha, bufferSize, rs[..n]), alpha, e), bufferSize, rs[n]);
      var vs := ValuesOf(rs[..n], series);
      if SeriesId(e) == series {
        assert (vs + [e.value])[..|vs|] == vs;
      } else {
        assert ValuesOf(rs, series) == vs;
      }
    }
  }

  lemma ObserveKeepsTrackers(l: Local, bufferSize: int, r: Reading)
    ensures ObserveKnown(l, bufferSize, r).trackers == l.trackers
  {
  }

  /** The last value a known device reported for a metric. */
  function LatestValue(rs: seq<Reading>, device: string, metric: string): Option<real> {
    if rs == [] then None
    else
      var r := rs[|rs|-1];
      if r.info.Some? && r.event.device == device && r.event.metric == metric then Some(r.event.value)
      else LatestValue(rs[..|rs|-1], device, metric)
  }

  /** The device's latest values in the order given, or None while one is missing. */
  function VectorOf(rs: seq<Reading>, device: string, order: seq<string>): Option<Vector> {
    if order == [] then Some([])
    else
      var n := |order| - 1;
      var front, last := VectorOf(rs, device, order[..n]), LatestValue(rs, device, order[n]);
      if front.Some? && last.Some? then Some(front.value + [last.value]) else None
  }

  /** Every vector completed for a machine type, oldest first. */
  function VectorsOf(rs: seq<Reading>, machineType: string): seq<Vector> {
    if rs == [] then []
    else
      var r := rs[|rs|-1];
      VectorsOf(rs[..|rs|-1], machineType)
        + if r.info.Some? && r.info.value.machineType == machineType && r.info.value.featureOrder != []
             && VectorOf(rs, r.event.device, r.info.value.featureOrder).Some?
          then [VectorOf(rs, r.event.device, r.info.value.featureOrder).value] else []
  }

  ghost predicate LatestMatches(latest: map<string, map<string, real>>, rs: seq<Reading>) {
    forall d: string, m: string ::
      var values := Get(latest, d, map[]);
      LatestValue(rs, d, m) == if m in values then Some(values[m]) else None
  }

  lemma {:induction false} LatestIsLast(alpha: real, bufferSize: int, rs: seq<Reading>)
    ensures LatestMatches(AbsorbAll(alpha, bufferSize, rs).latest, rs)
  {
    hide Absorb;
    if rs == [] {
    } else {
      var n := |rs| - 1;
      var before := AbsorbAll(alpha, bufferSize, rs[..n]);
      LatestIsLast(alpha, bufferSize, rs[..n]);
      AbsorbLatest(before, alpha, bufferSize, rs[n]);
      forall d: string, m: string
        ensures var values := Get(AbsorbAll(alpha, bufferSize, rs).latest, d, map[]);
                LatestValue(rs, d, m) == if m in values then Some(values[m]) else None
      {
        assert LatestValue(rs[..n], d, m) == if m in Get(before.latest, d, map[]) then Some(Get(before.latest, d, map[])[m]) else None;
      }
    }
  }

  lemma AbsorbLatest(l: Local, alpha: real, bufferSize: int, r: Reading)
    ensures Absorb(l, alpha, bufferSize, r).latest
         == if r.info.None? then l.latest
            else l.latest[r.event.device := Get(l.latest, r.event.device, map[])[r.event.metric := r.event.value]]
  {
  }

  lemma {:induction false} AssembleIsVector(values: map<string, real>, rs: seq<Reading>, device: string, order: seq<string>)
    requires forall m: string :: LatestValue(rs, device, m) == if m in values then Some(values[m]) else None
    ensures Assemble(values, order) == VectorOf(rs, device, order)
  {
    hide LatestValue;
    if order == [] {
    } else {
      AssembleIsVector(values, rs, device, order[..|order|-1]);
    }
  }

  lemma LastOfGrows<T>(s: seq<T>, x: T, n: int)
    ensures LastOf(LastOf(s, n) + [x], n) == LastOf(s + [x], n)
  {
  }

  ghost predicate BufferOf(training: map<string, seq<Vector>>, rs: seq<Reading>, bufferSize: int, machineType: string) {
    && (machineType in training <==> VectorsOf(rs, machineType) != [])
    && Get(training, machineType, []) == LastOf(VectorsOf(rs, machineType), bufferSize)
  }

  /** Each training buffer is exactly the last bufferSize vectors assembled for its machine type. */
  lemma {:induction false} TrainingIsLastVectors(alpha: real, bufferSize: int, rs: seq<Reading>, machineType: string)
    ensures BufferOf(AbsorbAll(alpha, bufferSize, rs).training, rs, bufferSize, machineType)
  {
    hide Ewma.Fold, Assemble, VectorOf, LatestValue, LastOf;
    if rs == [] {
      NoVectors<Vector>(bufferSize);
    } else {
      var n, r := |rs| - 1, rs[|rs|-1];
      TrainingIsLastVectors(alpha, bufferSize, rs[..n], machineType);
      LatestIsLast(alpha, bufferSize, rs);
      var before, after := AbsorbAll(alpha, bufferSize, rs[..n]), AbsorbAll(alpha, bufferSize, rs);
      if r.info.Some? {
        var values := Get(before.latest, r.event.device, map[])[r.event.metric := r.event.value];
        assert Get(after.latest, r.event.device, map[]) == values;
        AssembleIsVector(values, rs, r.event.device, r.info.value.featureOrder);
      }
      VectorStep(before.training, after.training, rs, bufferSize, machineType);
    }
  }

  lemma NoVectors<T>(n: int)
    ensures LastOf<T>([], n) == []
  {
  }

  lemma VectorStep(before: map<string, seq<Vector>>, after: map<string, seq<Vector>>, rs: seq<Reading>, bufferSize: int, machineType: string)
    requires rs != [] && BufferOf(before, rs[..|rs|-1], bufferSize, machineType)
    requires var r := rs[|rs|-1];
             var vector := if r.info.None? || r.info.value.featureOrder == [] then None
                           else VectorOf(rs, r.event.device, r.info.value.featureOrder);
             after == if vector.None? then before
                      else before[r.info.value.machineType := LastOf(Get(before, r.info.value.machineType, []) + [vector.value], bufferSize)]
    ensures BufferOf(after, rs, bufferSize, machineType)
  {
    hide VectorOf, LatestValue, LastOf, VectorsOf, BufferOf, Get;
    var n, r := |rs| - 1, rs[|rs|-1];
    var vector := if r.info.None? || r.info.value.featureOrder == [] then None
                  else VectorOf(rs, r.event.device, r.info.value.featureOrder);
    VectorsStep(rs, machineType);
    if vector.Some? && r.info.value.machineType == machineType {
      BufferGrows(before, rs, bufferSize, machineType, vector.value);
    } else {
      BufferStays(before, after, rs, bufferSize, machineType);
    }
  }

  lemma VectorsStep(rs: seq<Reading>, machineType: string)
    requires rs != []
    ensures var r := rs[|rs|-1];
            var vector := if r.info.None? || r.info.value.featureOrder == [] then None
                          else VectorOf(rs, r.event.device, r.info.value.featureOrder);
            VectorsOf(rs, machineType) == VectorsOf(rs[..|rs|-1], machineType)
              + if vector.Some? && r.info.value.machineType == machineType then [vector.value] else []
  {
    hide VectorOf;
  }

  lemma BufferGrows(before: map<string, seq<Vector>>, rs: seq<Reading>, bufferSize: int, machineType: string, v: Vector)
    requires rs != [] && BufferOf(before, rs[..|rs|-1], bufferSize, machineType)
    requires VectorsOf(rs, machineType) == VectorsOf(rs[..|rs|-1], machineType) + [v]
    ensures BufferOf(before[machineType := LastOf(Get(before, machineType, []) + [v], bufferSize)], rs, bufferSize, machineType)
  {
    hide LastOf, VectorsOf;
    LastOfGrows(VectorsOf(rs[..|rs|-1], machineType), v, bufferSize);
  }

  lemma BufferStays(before: map<string, seq<Vector>>, after: map<string, seq<Vector>>, rs: seq<Reading>,
                    bufferSize: int, machineType: string)
    requires rs != [] && BufferOf(before, rs[..|rs|-1], bufferSize, machineType)
    requires VectorsOf(rs, machineType) == VectorsOf(rs[..|rs|-1], machineType)
    requires machineType in after <==> machineType in before
    requires machineType in before ==> after[machineType] == before[machineType]
    ensures BufferOf(after, rs, bufferSize, machineType)
  {
    hide LastOf, VectorsOf;
  }

  /** Every reading of the machine type was handled under a feature order of this length. */
  ghost predicate OneWidth(rs: seq<Reading>, machineType: string, width: nat) {
    forall i :: 0 <= i < |rs| && rs[i].info.Some? && rs[i].info.value.machineType == machineType ==>
      rs[i].info.value.featureOrder == [] || |rs[i].info.value.featureOrder| == width
  }

  /** While the catalog keeps a machine type's metrics, its training rows all have one width, so that no draw in
      growing a forest on them meets the index error. */
  lemma StableCatalogIsRectangular(alpha: real, bufferSize: int, rs: seq<Reading>, machineType: string, width: nat)
    requires OneWidth(rs, machineType, width)
    ensures IsolationForest.Rectangular(Get(AbsorbAll(alpha, bufferSize, rs).training, machineType, []), width)
  {
    hide AbsorbAll;
    TrainingIsLastVectors(alpha, bufferSize, rs, machineType);
    VectorWidths(rs, machineType, width);
  }

  lemma {:induction false} VectorWidths(rs: seq<Reading>, machineType: string, width: nat)
    requires OneWidth(rs, machineType, width)
    ensures IsolationForest.Rectangular(VectorsOf(rs, machineType), width)
  {
    hide VectorOf;
    if rs == [] {
    } else {
      var r := rs[|rs|-1];
      VectorWidths(rs[..|rs|-1], machineType, width);
      if r.info.Some? {
        VectorWidth(rs, r.event.device, r.info.value.featureOrder);
      }
    }
  }

  lemma {:induction false} VectorWidth(rs: seq<Reading>, device: string, order: seq<string>)
    ensures VectorOf(rs, device, order).Some? ==> |VectorOf(rs, device, order).value| == |order|
  {
    hide LatestValue;
    if order == [] {
    } else {
      VectorWidth(rs, device, order[..|order|-1]);
    }
  }

  /** The vector an observation returns holds the device's latest values in the order given, once it has them all. */
  lemma ObservedVector(alpha: real, bufferSize: int, rs: seq<Reading>)
    requires rs != [] && rs[|rs|-1].info.Some?
    ensures var n, r := |rs| - 1, rs[|rs|-1];
            var before := Track(AbsorbAll(alpha, bufferSize, rs[..n]), alpha, r.event);
            Observe(before, bufferSize, r.event, r.info.value).1
            == if r.info.value.featureOrder == [] then None else VectorOf(rs, r.event.device, r.info.value.featureOrder)
  {
    hide Ewma.Fold, VectorOf, LatestValue, Assemble, LastOf;
    var n, r := |rs| - 1, rs[|rs|-1];
    LatestIsLast(alpha, bufferSize, rs);
    var before := AbsorbAll(alpha, bufferSize, rs[..n]);
    var values := Get(before.latest, r.event.device, map[])[r.event.metric := r.event.value];
    assert Get(AbsorbAll(alpha, bufferSize, rs).latest, r.event.device, map[]) == values;
    AssembleIsVector(values, rs, r.event.device, r.info.value.featureOrder);
  }

  // ---- Exactly what is published, dead-lettered and committed ----------------

  /** What the detectors are given for a reading that follows others, told from the readings: the z-score and count that
      close the series' readings, and the device's latest values once all of them are there. */
  function JudgedAfter(alpha: real, sqrt: real -> real, rs: seq<Reading>, r: Reading): Judged {
    var values := ValuesOf(rs, SeriesId(r.event));
    Ewma.ReadingsLength(alpha, sqrt, values + [r.event.value]);
    var (zScore, count) := Ewma.Readings(alpha, sqrt, values + [r.event.value])[|values|];
    Judged(zScore, count,
           if r.info.None? || r.info.value.featureOrder == [] then None
           else VectorOf(rs + [r], r.event.device, r.info.value.featureOrder))
  }

  lemma JudgeIsJudgedAfter(alpha: real, bufferSize: int, sqrt: real -> real, rs: seq<Reading>, r: Reading)
    ensures Judge(AbsorbAll(alpha, bufferSize, rs), alpha, bufferSize, sqrt, r) == JudgedAfter(alpha, sqrt, rs, r)
  {
    hide AbsorbAll, Ewma.Fold, Ewma.ZScore, Ewma.Run, Ewma.Readings, Observe, VectorOf, ValuesOf;
    var values := ValuesOf(rs, SeriesId(r.event));
    TrackersAreBaselines(alpha, bufferSize, rs, SeriesId(r.event));
    Ewma.LastReading(alpha, sqrt, values, r.event.value);
    Ewma.FoldCounts(alpha, values, r.event.value);
    if r.info.Some? {
      assert (rs + [r])[..|rs|] == rs;
      ObservedVector(alpha, bufferSize, rs + [r]);
    }
  }

  /** The detectors fire on delivery i, given the first copies absorbed before it. */
  predicate Fires(alpha: real, sqrt: real -> real, ds: seq<Delivery>, i: nat)
    requires i < |ds| && ds[i].msg.Telemetry?
  {
    ds[i].w.fires(JudgedAfter(alpha, sqrt, FirstCopies(ds[..i]), ds[i].msg.reading))
  }

  /** Delivery i carries an event that this instance is first to claim, is told so, and finds anomalous. */
  predicate Announces(alpha: real, sqrt: real -> real, ds: seq<Delivery>, i: nat) {
    i < |ds| && ds[i].msg.Telemetry? && IsFirstCopy(ds, i) && ds[i].w.ledger.Answered? && Fires(alpha, sqrt, ds, i)
  }

  /** The anomalies published, in order, each as often as its call landed it. */
  function AnomaliesOf(alpha: real, sqrt: real -> real, ds: seq<Delivery>): seq<Anomaly> {
    if ds == [] then []
    else
      var n := |ds| - 1;
      AnomaliesOf(alpha, sqrt, ds[..n])
        + if Announces(alpha, sqrt, ds, n) then Landed(Anomaly(ds[n].w.anomalyId, ds[n].msg.reading.event.id), ds[n].w.publish) else []
  }

  /** Whether delivery i comes to a dead letter, and at which stage. */
  function FailedStage(alpha: real, sqrt: real -> real, ds: seq<Delivery>, i: nat): Option<Stage>
    requires i < |ds|
  {
    if ds[i].msg.Malformed? then Some(Unmarshal)
    else if Announces(alpha, sqrt, ds, i) && !ds[i].w.publish.Confirmed? then Some(PublishAnomaly)
    else None
  }

  function DeadLettersOf(alpha: real, sqrt: real -> real, ds: seq<Delivery>): seq<(Message, Stage)> {
    if ds == [] then []
    else
      var n := |ds| - 1;
      var stage := FailedStage(alpha, sqrt, ds, n);
      DeadLettersOf(alpha, sqrt, ds[..n]) + if stage.Some? then Landed((ds[n].msg, stage.value), ds[n].w.deadLetter) else []
  }

  lemma WritesOfHandle(s: Shared, l: Local, alpha: real, bufferSize: int, sqrt: real -> real, d: Delivery)
    ensures var (s', _, commit) := Handle(s, l, alpha, bufferSize, sqrt, d.msg, d.w);
            var announces := d.msg.Telemetry? && d.w.ledger.Answered? && d.msg.reading.event.id !in s.ledger
                             && d.w.fires(Judge(l, alpha, bufferSize, sqrt, d.msg.reading));
            && s'.topic == s.topic
                 + (if announces then Landed(Anomaly(d.w.anomalyId, d.msg.reading.event.id), d.w.publish) else [])
            && s'.deadLetters == s.deadLetters
                 + (if d.msg.Malformed? then Landed((d.msg, Unmarshal), d.w.deadLetter)
                    else if announces && !d.w.publish.Confirmed? then Landed((d.msg, PublishAnomaly), d.w.deadLetter)
                    else [])
            && (commit <==> if d.msg.Malformed? then d.w.deadLetter.Confirmed?
                            else d.w.ledger.Answered? && (announces ==> d.w.publish.Confirmed? || d.w.deadLetter.Confirmed?))
  {
    hide Absorb, Landed, Judge;
  }

  lemma ReachesLedgerIff(alpha: real, bufferSize: int, sqrt: real -> real, ds: seq<Delivery>)
    requires ds != []
    ensures var n := |ds| - 1;
            Claims(ds, n) ==> (ds[n].msg.reading.event.id !in Run(alpha, bufferSize, sqrt, ds[..n]).0.ledger <==> IsFirstCopy(ds, n))
  {
    hide Run;
    var n := |ds| - 1;
    RunLedger(alpha, bufferSize, sqrt, ds[..n]);
    if Claims(ds, n) {
      NotInLedgerIff(Run(alpha, bufferSize, sqrt, ds[..n]).0.ledger, ds);
    }
  }

  /** Over every delivery sequence, the anomaly topic and the dead-letter topic hold exactly what the announcing and the
      malformed deliveries landed there, in order. */
  lemma {:induction false} RunWrites(alpha: real, bufferSize: int, sqrt: real -> real, ds: seq<Delivery>)
    ensures var s := Run(alpha, bufferSize, sqrt, ds).0;
            s.topic == AnomaliesOf(alpha, sqrt, ds) && s.deadLetters == DeadLettersOf(alpha, sqrt, ds)
  {
    hide Handle, Landed, IsFirstCopy, Fires, Judge;
    if ds == [] {
    } else {
      var n := |ds| - 1;
      var (s, l) := Run(alpha, bufferSize, sqrt, ds[..n]);
      RunWrites(alpha, bufferSize, sqrt, ds[..n]);
      WritesOfHandle(s, l, alpha, bufferSize, sqrt, ds[n]);
      ReachesLedgerIff(alpha, bufferSize, sqrt, ds);
      FirstCopyClaims(ds, n);
      StateJudges(alpha, bufferSize, sqrt, ds);
    }
  }

  lemma StateJudges(alpha: real, bufferSize: int, sqrt: real -> real, ds: seq<Delivery>)
    requires ds != []
    ensures var n := |ds| - 1;
            ds[n].msg.Telemetry? ==>
              (Fires(alpha, sqrt, ds, n) <==>
               ds[n].w.fires(Judge(Run(alpha, bufferSize, sqrt, ds[..n]).1, alpha, bufferSize, sqrt, ds[n].msg.reading)))
  {
    hide Run, Judge, JudgedAfter, FirstCopies;
    var n := |ds| - 1;
    StateIsFoldOfFirstCopies(alpha, bufferSize, sqrt, ds[..n]);
    if ds[n].msg.Telemetry? {
      JudgeIsJudgedAfter(alpha, bufferSize, sqrt, FirstCopies(ds[..n]), ds[n].msg.reading);
    }
  }

  lemma FirstCopyClaims(ds: seq<Delivery>, i: nat)
    requires i < |ds|
    ensures IsFirstCopy(ds, i) ==> Claims(ds, i)
    ensures Claims(ds, i) <==> ds[i].msg.Telemetry? && !ds[i].w.ledger.Unreachable?
  {
  }

  /** Copies of an event's anomaly in a topic. */
  function CountAnomalies(topic: seq<Anomaly>, id: string): nat {
    if topic == [] then 0
    else CountAnomalies(topic[..|topic|-1], id) + if topic[|topic|-1].eventId == id then 1 else 0
  }

  lemma {:induction false} CountLanded(topic: seq<Anomaly>, more: seq<Anomaly>, a: Anomaly, id: string)
    requires forall k :: 0 <= k < |more| ==> more[k] == a
    ensures CountAnomalies(topic + more, id) == CountAnomalies(topic, id) + if a.eventId == id then |more| else 0
    decreases |more|
  {
    if more == [] {
      assert topic + more == topic;
    } else {
      var n := |more| - 1;
      CountLanded(topic, more[..n], a, id);
      assert (topic + more)[..|topic|+n] == topic + more[..n];
    }
  }

  /** How many copies an event id has in the topic: what its one announcing delivery landed, or none. */
  lemma {:induction false} CopiesPublished(alpha: real, bufferSize: int, sqrt: real -> real, ds: seq<Delivery>, id: string)
    ensures var copies := CountAnomalies(Run(alpha, bufferSize, sqrt, ds).0.topic, id);
            && (forall i: nat :: Announces(alpha, sqrt, ds, i) && ds[i].msg.reading.event.id == id ==> copies == ds[i].w.publish.Landings())
            && ((forall i: nat :: Announces(alpha, sqrt, ds, i) ==> ds[i].msg.reading.event.id != id) ==> copies == 0)
  {
    hide Run, Landed, CountAnomalies, IsFirstCopy, Fires;
    RunWrites(alpha, bufferSize, sqrt, ds);
    if ds == [] {
      NoAnomalies(id);
      forall i: nat
        ensures !Announces(alpha, sqrt, ds, i)
      {
        NoneFirst(i);
      }
    } else {
      var n := |ds| - 1;
      RunWrites(alpha, bufferSize, sqrt, ds[..n]);
      CopiesPublished(alpha, bufferSize, sqrt, ds[..n], id);
      forall i: nat | i <= n
        ensures i < n ==> (Announces(alpha, sqrt, ds[..n], i) <==> Announces(alpha, sqrt, ds, i)) && ds[..n][i] == ds[i]
        ensures i < n && Announces(alpha, sqrt, ds, i) && Announces(alpha, sqrt, ds, n) ==> ds[i].msg.reading.event.id != ds[n].msg.reading.event.id
      {
        if i < n {
          FirstCopyPrefix(ds, i);
          FiresPrefix(alpha, sqrt, ds, i);
        }
      }
      forall i: nat
        ensures Announces(alpha, sqrt, ds, i) ==> i <= n
        ensures Announces(alpha, sqrt, ds[..n], i) ==> i < n
      {
        AnnouncesWithin(alpha, sqrt, ds, i);
        AnnouncesWithin(alpha, sqrt, ds[..n], i);
      }
      if Announces(alpha, sqrt, ds, n) {
        var a := Anomaly(ds[n].w.anomalyId, ds[n].msg.reading.event.id);
        CountLanded(AnomaliesOf(alpha, sqrt, ds[..n]), Landed(a, ds[n].w.publish), a, id);
      } else {
        assert AnomaliesOf(alpha, sqrt, ds) == AnomaliesOf(alpha, sqrt, ds[..n]);
      }
    }
  }

  lemma NoAnomalies(id: string)
    ensures CountAnomalies([], id) == 0
  {
  }

  lemma NoneFirst(i: nat)
    ensures !IsFirstCopy([], i)
  {
  }

  lemma AnnouncesWithin(alpha: real, sqrt: real -> real, ds: seq<Delivery>, i: nat)
    ensures Announces(alpha, sqrt, ds, i) ==> i < |ds|
  {
  }

  lemma FiresPrefix(alpha: real, sqrt: real -> real, ds: seq<Delivery>, i: nat)
    requires i < |ds| - 1
    ensures ds[i].msg.Telemetry? ==> (Fires(alpha, sqrt, ds[..|ds|-1], i) <==> Fires(alpha, sqrt, ds, i))
  {
    assert ds[..|ds|-1][..i] == ds[..i];
  }

  lemma FirstCopyPrefix(ds: seq<Delivery>, i: nat)
    requires i < |ds| - 1
    ensures IsFirstCopy(ds[..|ds|-1], i) <==> IsFirstCopy(ds, i)
    ensures IsFirstCopy(ds, i) && IsFirstCopy(ds, |ds| - 1) ==> ds[i].msg.reading.event.id != ds[|ds|-1].msg.reading.event.id
  {
    var n := |ds| - 1;
    assert forall j: nat :: j < n ==> (Claims(ds[..n], j) <==> Claims(ds, j)) && ds[..n][j] == ds[j];
  }

  function Commits(alpha: real, bufferSize: int, sqrt: real -> real, ds: seq<Delivery>, i: nat): bool
    requires i < |ds|
  {
    var (s, l) := Run(alpha, bufferSize, sqrt, ds[..i]);
    Handle(s, l, alpha, bufferSize, sqrt, ds[i].msg, ds[i].w).2
  }

  /** Exactly which offsets are committed: a malformed message with a confirmed dead letter; and an event whose claim is
      answered, unless it is the first copy, fires, and neither its publication nor its dead letter is confirmed. */
  lemma CommitsIff(alpha: real, bufferSize: int, sqrt: real -> real, ds: seq<Delivery>, i: nat)
    requires i < |ds|
    ensures Commits(alpha, bufferSize, sqrt, ds, i) <==>
              if ds[i].msg.Malformed? then ds[i].w.deadLetter.Confirmed?
              else
                && ds[i].w.ledger.Answered?
                && (!IsFirstCopy(ds, i) || !Fires(alpha, sqrt, ds, i) || ds[i].w.publish.Confirmed? || ds[i].w.deadLetter.Confirmed?)
  {
    hide Run, Handle, Judge, JudgedAfter, FirstCopies;
    var upTo := ds[..i+1];
    assert upTo[..i] == ds[..i] && upTo[i] == ds[i];
    var (s, l) := Run(alpha, bufferSize, sqrt, ds[..i]);
    WritesOfHandle(s, l, alpha, bufferSize, sqrt, ds[i]);
    ReachesLedgerIff(alpha, bufferSize, sqrt, upTo);
    StateJudges(alpha, bufferSize, sqrt, upTo);
    assert forall j: nat :: j <= i ==> (Claims(upTo, j) <==> Claims(ds, j)) && upTo[j] == ds[j];
  }
}
