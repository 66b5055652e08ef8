/**
 Many anomaly-detector instances at once (services/anomaly-detector/main.py, idempotency.py, kafka_io.py).

 Instances share the durable ledger and the anomaly topic, and nothing else. Any of
 them may crash between two steps, and the broker may redeliver to any of them. The
 theorems say what is done at most once, exactly which events are folded in and
 announced at all, and how many copies of an anomaly the topic ends up with.
 */
module DetectorFleet {
  import opened Dependencies
  import opened Detector

  /** Where an instance stands with the message in hand. */
  datatype Stage = Idle | Received(r: Reading) | Claimed(r: Reading) | Tracked(r: Reading) | Observed(r: Reading)

  /** One copy of an anomaly, which carries the id of the call that published it. */
  datatype Copy = Copy(call: nat, eventId: string)

  /** The durable ledger, each instance's stage, the anomaly topic, and a log of every fold and every
      publishing call by event id. A call's anomaly id stands for its position in that log. */
  datatype Fleet = Fleet(ledger: set<string>, stages: map<nat, Stage>,
                         tracked: seq<string>, observed: seq<string>, calls: seq<string>, topic: seq<Copy>)

  const NEW_FLEET := Fleet({}, map[], [], [], [], [])

  datatype Step =
    | Receive(i: nat, r: Reading)                       // a delivery or redelivery, to any idle instance
    | Claim(i: nat, how: Claiming)                      // the atomic insert into the ledger
    | TrackStep(i: nat)                                 // fold into the EWMA baselines
    | ObserveStep(i: nat)                               // fold into the training buffer
    | PublishStep(i: nat, fires: bool, report: Report)  // one publishing call with all its retries
    | Late(i: nat, call: nat)                           // a copy still in flight lands after its call has ended
    | Crash(i: nat)                                     // at any point; detector state and the message in hand are gone

  function Publish(f: Fleet, id: string, report: Report): Fleet {
    f.(calls := f.calls + [id], topic := f.topic + Landed(Copy(|f.calls|, id), report))
  }

  function Advance(f: Fleet, step: Step): Fleet {
    match step
    case Receive(i, r) =>
      if i !in f.stages || f.stages[i].Idle? then f.(stages := f.stages[i := Received(r)]) else f
    case Claim(i, how) =>
      if i in f.stages && f.stages[i].Received? then
        var id := f.stages[i].r.event.id;
        var claimed := if how.Unreachable? then f else f.(ledger := f.ledger + {id});
        claimed.(stages := f.stages[i := if how.Answered? && id !in f.ledger then Claimed(f.stages[i].r) else Idle])
      else f
    case TrackStep(i) =>
      if i in f.stages && f.stages[i].Claimed? then
        f.(tracked := f.tracked + [f.stages[i].r.event.id], stages := f.stages[i := Tracked(f.stages[i].r)])
      else f
    case ObserveStep(i) =>
      if i in f.stages && f.stages[i].Tracked? then
        f.(observed := f.observed + [f.stages[i].r.event.id], stages := f.stages[i := Observed(f.stages[i].r)])
      else f
    case PublishStep(i, fires, report) =>
      if i in f.stages && f.stages[i].Observed? then
        var f' := if fires then Publish(f, f.stages[i].r.event.id, report) else f;
        f'.(stages := f.stages[i := Idle])
      else f
    case Late(_, call) => if call < |f.calls| then f.(topic := f.topic + [Copy(call, f.calls[call])]) else f
    case Crash(i) => f.(stages := f.stages[i := Idle])
  }

  function RunFleet(steps: seq<Step>): Fleet {
    if steps == [] then NEW_FLEET else Advance(RunFleet(steps[..|steps|-1]), steps[|steps|-1])
  }

  ghost predicate NoRepeats(ids: seq<string>) {
    forall i, j :: 0 <= i < j < |ids| ==> ids[i] != ids[j]
  }

  /** The instance holds a claim on the id and has not finished with it. */
  predicate Holds(f: Fleet, i: nat, id: string) {
    i in f.stages && !f.stages[i].Idle? && !f.stages[i].Received? && f.stages[i].r.event.id == id
  }

  /** A stage has the effects before it behind it, and none of those after it. */
  ghost predicate InOrder(f: Fleet, s: Stage) {
    match s
    case Claimed(r) => r.event.id !in f.tracked && r.event.id !in f.observed && r.event.id !in f.calls
    case Tracked(r) => r.event.id !in f.observed && r.event.id !in f.calls
    case Observed(r) => r.event.id !in f.calls
    case _ => true
  }

  ghost predicate AtMostOnce(f: Fleet) {
    && NoRepeats(f.tracked) && NoRepeats(f.observed) && NoRepeats(f.calls)
    && (forall id :: id in f.tracked || id in f.observed || id in f.calls ==> id in f.ledger)
    && (forall i :: i in f.stages ==> InOrder(f, f.stages[i]))
    && (forall i, id :: Holds(f, i, id) ==> id in f.ledger)
    && (forall i, j, id :: Holds(f, i, id) && Holds(f, j, id) ==> i == j)
  }

  /** Every copy in the topic comes from the publishing call it names. */
  ghost predicate Traceable(f: Fleet) {
    forall k :: 0 <= k < |f.topic| ==> f.topic[k].call < |f.calls| && f.calls[f.topic[k].call] == f.topic[k].eventId
  }

  lemma AppendNoRepeats(ids: seq<string>, id: string)
    requires NoRepeats(ids) && id !in ids
    ensures NoRepeats(ids + [id])
    ensures forall x :: x in ids + [id] <==> x in ids || x == id
  {
  }

  /** A step gives at most its own instance a claim, and only on an id that the ledger did not hold. */
  lemma AdvanceHolds(f: Fleet, step: Step)
    ensures forall j, id :: Holds(Advance(f, step), j, id) ==>
              if j == step.i then Holds(f, j, id) || (id !in f.ledger && id in Advance(f, step).ledger) else Holds(f, j, id)
    ensures f.ledger <= Advance(f, step).ledger
  {
    hide Landed;
  }

  lemma AdvanceInOrder(f: Fleet, step: Step)
    requires AtMostOnce(f)
    ensures forall j :: j in Advance(f, step).stages ==> InOrder(Advance(f, step), Advance(f, step).stages[j])
  {
    hide NoRepeats, Landed;
    var f' := Advance(f, step);
    var i := step.i;
    assert i in f.stages && !f.stages[i].Idle? && !f.stages[i].Received? ==> Holds(f, i, f.stages[i].r.event.id);
    forall j | j in f'.stages
      ensures InOrder(f', f'.stages[j])
    {
      if j != i && !f.stages[j].Idle? && !f.stages[j].Received? {
        assert Holds(f, j, f.stages[j].r.event.id);
      }
    }
  }

  lemma AdvanceAtMostOnce(f: Fleet, step: Step)
    requires AtMostOnce(f)
    ensures AtMostOnce(Advance(f, step))
  {
    hide NoRepeats, Holds, Landed;
    var f' := Advance(f, step);
    assert step.i in f.stages && !f.stages[step.i].Idle? && !f.stages[step.i].Received? ==> f.stages[step.i].r.event.id in f.ledger by {
      HoldsOwn(f, step.i);
    }
    AdvanceHolds(f, step);
    AdvanceInOrder(f, step);
    if step.TrackStep? && f' != f {
      AppendNoRepeats(f.tracked, f.stages[step.i].r.event.id);
    } else if step.ObserveStep? && f' != f {
      AppendNoRepeats(f.observed, f.stages[step.i].r.event.id);
    } else if step.PublishStep? && f' != f && step.fires {
      AppendNoRepeats(f.calls, f.stages[step.i].r.event.id);
    }
  }

  lemma HoldsOwn(f: Fleet, i: nat)
    ensures i in f.stages && !f.stages[i].Idle? && !f.stages[i].Received? ==> Holds(f, i, f.stages[i].r.event.id)
  {
  }

  lemma AdvanceTraceable(f: Fleet, step: Step)
    requires Traceable(f)
    ensures Traceable(Advance(f, step))
  {
  }

  /** Over every interleaving of instances, crashes, redeliveries and lost answers, no event is folded into the
      baselines, folded into training, or handed to a publishing call more than once in total. */
  lemma {:induction false} DetectionAtMostOnce(steps: seq<Step>)
    ensures AtMostOnce(RunFleet(steps)) && Traceable(RunFleet(steps))
  {
    hide Advance, AtMostOnce, Traceable;
    if steps == [] {
      NothingYet();
    } else {
      DetectionAtMostOnce(steps[..|steps|-1]);
      AdvanceAtMostOnce(RunFleet(steps[..|steps|-1]), steps[|steps|-1]);
      AdvanceTraceable(RunFleet(steps[..|steps|-1]), steps[|steps|-1]);
    }
  }

  lemma NothingYet()
    ensures AtMostOnce(NEW_FLEET) && Traceable(NEW_FLEET)
  {
  }

  /** The topic may hold several copies of an anomaly, since a publishing call retries. But all copies for one
      event are the same anomaly, made by one publishing call. */
  lemma OneAnomalyAnEvent(steps: seq<Step>)
    ensures var topic := RunFleet(steps).topic;
            forall i, j :: 0 <= i < |topic| && 0 <= j < |topic| && topic[i].eventId == topic[j].eventId ==> topic[i] == topic[j]
  {
    hide RunFleet;
    DetectionAtMostOnce(steps);
  }

  /** One instance that nothing interrupts does to ledger and topic what the service does with one message. */
  lemma UninterruptedIsHandle(f: Fleet, i: nat, r: Reading, w: Weather, s: Shared, l: Local,
                              alpha: real, bufferSize: int, sqrt: real -> real)
    requires i in f.stages && f.stages[i].Idle? && s.ledger == f.ledger
    ensures var g := Advance(Advance(Advance(f, Receive(i, r)), Claim(i, w.ledger)), TrackStep(i));
            var f' := Advance(Advance(g, ObserveStep(i)), PublishStep(i, w.fires(Judge(l, alpha, bufferSize, sqrt, r)), w.publish));
            var s' := Handle(s, l, alpha, bufferSize, sqrt, Telemetry(r), w).0;
            && f'.ledger == s'.ledger
            && |f'.topic| - |f.topic| == |s'.topic| - |s.topic|
            && (forall k :: |f.topic| <= k < |f'.topic| ==> f'.topic[k].eventId == r.event.id)
  {
    hide Absorb, Judge;
  }

  // ---- Exactly which events are folded in ------------------------------------

  /** The state before step k; at k == |steps|, the final state. */
  function Before(steps: seq<Step>, k: nat): Fleet
    requires k <= |steps|
  {
    RunFleet(steps[..k])
  }

  lemma BeforePrefix(steps: seq<Step>, n: nat)
    requires n <= |steps|
    ensures forall k :: 0 <= k <= n ==> Before(steps[..n], k) == Before(steps, k)
  {
    forall k | 0 <= k <= n
      ensures Before(steps[..n], k) == Before(steps, k)
    {
      assert steps[..n][..k] == steps[..k];
    }
  }

  lemma RunNext(steps: seq<Step>, k: nat)
    requires k < |steps|
    ensures Before(steps, 0) == NEW_FLEET
    ensures Before(steps, k + 1) == Advance(Before(steps, k), steps[k])
    ensures Before(steps, |steps|) == RunFleet(steps)
  {
    assert steps[..k+1][..k] == steps[..k];
    assert steps[..|steps|] == steps;
  }

  /** How many of its stages a claimed message has behind it. */
  function Passed(s: Stage): nat {
    match s
    case Claimed(_) => 1
    case Tracked(_) => 2
    case Observed(_) => 3
    case _ => 0
  }

  /** The instance holds the claimed message with n stages behind it. */
  predicate At(f: Fleet, i: nat, id: string, n: nat) {
    n > 0 && i in f.stages && Passed(f.stages[i]) == n && f.stages[i].r.event.id == id
  }

  /** The step is the claim that puts the id in the ledger, and its answer arrives. */
  predicate ClaimsNow(f: Fleet, step: Step, i: nat, id: string) {
    step == Claim(i, Answered) && i in f.stages && f.stages[i].Received? && f.stages[i].r.event.id == id && id !in f.ledger
  }

  /** The step that takes the instance on from stage n: fold into the baselines, fold into training, announce. */
  predicate MovesOn(step: Step, i: nat, n: nat) {
    step.i == i && ((n == 1 && step.TrackStep?) || (n == 2 && step.ObserveStep?) || (n == 3 && step.PublishStep?))
  }

  lemma AdvanceAt(f: Fleet, step: Step, i: nat, id: string, n: nat)
    requires 1 <= n <= 3
    ensures At(Advance(f, step), i, id, n) <==>
              || (if n == 1 then ClaimsNow(f, step, i, id) else MovesOn(step, i, n - 1) && At(f, i, id, n - 1))
              || (At(f, i, id, n) && step != Crash(i) && !MovesOn(step, i, n))
  {
    hide Landed;
  }

  /** Step m is the first after step k to take the instance on from stage n, and the instance has not crashed in between. */
  ghost predicate FirstAfter(steps: seq<Step>, i: nat, n: nat, k: nat, m: nat) {
    && k < m < |steps| && MovesOn(steps[m], i, n)
    && forall j :: k < j < m ==> steps[j] != Crash(i) && !MovesOn(steps[j], i, n)
  }

  /** At step m the instance takes the event from stage n to the next: claimed, folded into the baselines, past the
      feature store, announced; each step the first of its kind after the one before, and no crash between. */
  ghost predicate PassesAt(steps: seq<Step>, n: nat, m: nat, i: nat, id: string)
    decreases n
  {
    && m < |steps|
    && if n == 0 then ClaimsNow(Before(steps, m), steps[m], i, id)
       else exists k: nat :: PassesAt(steps, n - 1, k, i, id) && FirstAfter(steps, i, n, k, m)
  }

  /** Step m enters stage n of the event. */
  ghost predicate Enters(steps: seq<Step>, n: nat, m: nat, i: nat, id: string)
    requires n > 0
  {
    && m < |steps|
    && if n == 1 then ClaimsNow(Before(steps, m), steps[m], i, id)
       else MovesOn(steps[m], i, n - 1) && At(Before(steps, m), i, id, n - 1)
  }

  /** Nothing takes the instance out of stage n between step m and the end. */
  ghost predicate Stays(steps: seq<Step>, i: nat, n: nat, m: nat) {
    forall j :: m < j < |steps| ==> steps[j] != Crash(i) && !MovesOn(steps[j], i, n)
  }

  /** An instance is in a stage exactly when it entered it and nothing has taken it out since. */
  lemma {:induction false} AtIff(steps: seq<Step>, i: nat, id: string, n: nat)
    requires 1 <= n <= 3
    ensures At(RunFleet(steps), i, id, n) <==> exists m: nat :: Enters(steps, n, m, i, id) && Stays(steps, i, n, m)
    decreases |steps|
  {
    hide Advance, At, ClaimsNow, MovesOn;
    if steps == [] {
      NobodyHolds(i, id, n);
    } else {
      var l := |steps| - 1;
      BeforePrefix(steps, l);
      RunNext(steps, l);
      AtIff(steps[..l], i, id, n);
      AdvanceAt(Before(steps, l), steps[l], i, id, n);
      assert forall m: nat :: m < l ==> (Enters(steps[..l], n, m, i, id) <==> Enters(steps, n, m, i, id));
      assert forall m: nat :: m < l ==> (Stays(steps, i, n, m) <==>
                                Stays(steps[..l], i, n, m) && steps[l] != Crash(i) && !MovesOn(steps[l], i, n));
      if Enters(steps, n, l, i, id) {
        assert Stays(steps, i, n, l);
      }
      if m: nat :| Enters(steps[..l], n, m, i, id) && Stays(steps[..l], i, n, m) {
        assert Enters(steps, n, m, i, id);
      }
    }
  }

  lemma NobodyHolds(i: nat, id: string, n: nat)
    ensures !At(RunFleet([]), i, id, n)
  {
  }

  /** The event comes to its publishing call, which is made at step p. */
  ghost predicate AnnouncesAt(steps: seq<Step>, p: nat, i: nat, id: string) {
    p < |steps| && steps[p].PublishStep? && steps[p].fires && PassesAt(steps, 3, p, i, id)
  }

  /** Reading the path off the steps agrees with reading the stage off the state. */
  lemma {:induction false} PassesIff(steps: seq<Step>, n: nat, m: nat, i: nat, id: string)
    requires 1 <= n <= 3 && m < |steps|
    ensures PassesAt(steps, n, m, i, id) <==> MovesOn(steps[m], i, n) && At(Before(steps, m), i, id, n)
    decreases n
  {
    hide At, ClaimsNow, MovesOn, RunFleet;
    AtIff(steps[..m], i, id, n);
    BeforePrefix(steps, m);
    forall k: nat | k < m
      ensures Enters(steps[..m], n, k, i, id) <==> PassesAt(steps, n - 1, k, i, id)
      ensures Stays(steps[..m], i, n, k) && MovesOn(steps[m], i, n) <==> FirstAfter(steps, i, n, k, m)
    {
      if n > 1 {
        PassesIff(steps, n - 1, k, i, id);
      }
    }
    if PassesAt(steps, n, m, i, id) {
      var k: nat :| PassesAt(steps, n - 1, k, i, id) && FirstAfter(steps, i, n, k, m);
      assert Enters(steps[..m], n, k, i, id) && Stays(steps[..m], i, n, k);
    }
    if MovesOn(steps[m], i, n) && At(Before(steps, m), i, id, n) {
      var k: nat :| Enters(steps[..m], n, k, i, id) && Stays(steps[..m], i, n, k);
      assert PassesAt(steps, n - 1, k, i, id) && FirstAfter(steps, i, n, k, m);
    }
  }

  /** What a step adds to the logs. */
  lemma AdvanceLogs(f: Fleet, step: Step, id: string)
    ensures id in Advance(f, step).tracked <==> id in f.tracked || (MovesOn(step, step.i, 1) && At(f, step.i, id, 1))
    ensures id in Advance(f, step).observed <==> id in f.observed || (MovesOn(step, step.i, 2) && At(f, step.i, id, 2))
    ensures id in Advance(f, step).calls <==> id in f.calls || (MovesOn(step, step.i, 3) && At(f, step.i, id, 3) && step.fires)
  {
    hide Landed;
  }

  lemma {:induction false} LoggedIff(steps: seq<Step>, id: string)
    ensures id in RunFleet(steps).tracked <==> exists m: nat, i: nat :: PassesAt(steps, 1, m, i, id)
    ensures id in RunFleet(steps).observed <==> exists m: nat, i: nat :: PassesAt(steps, 2, m, i, id)
    ensures id in RunFleet(steps).calls <==> exists m: nat, i: nat :: AnnouncesAt(steps, m, i, id)
  {
    hide Advance, At, PassesAt;
    if steps == [] {
      NothingPasses(id);
    } else {
      var l := |steps| - 1;
      RunNext(steps, l);
      LoggedIff(steps[..l], id);
      AdvanceLogs(Before(steps, l), steps[l], id);
      PassesStep(steps, 1, id);
      PassesStep(steps, 2, id);
      PassesStep(steps, 3, id);
      LastPass(steps, 1, id);
      LastPass(steps, 2, id);
      forall m: nat, i: nat
        ensures AnnouncesAt(steps[..l], m, i, id) <==> m < l && AnnouncesAt(steps, m, i, id)
      {
      }
      assert forall i: nat :: AnnouncesAt(steps, l, i, id) <==>
                                i == steps[l].i && MovesOn(steps[l], i, 3) && steps[l].fires && At(Before(steps, l), i, id, 3);
      assert forall m: nat, i: nat :: AnnouncesAt(steps, m, i, id) ==> m < l || (m == l && i == steps[l].i);
      if id in RunFleet(steps[..l]).calls {
        var m: nat, i: nat :| AnnouncesAt(steps[..l], m, i, id);
        assert AnnouncesAt(steps, m, i, id);
      }
    }
  }

  /** Some instance passes the stage by the end exactly if one did before the last step, or the last step does. */
  lemma LastPass(steps: seq<Step>, n: nat, id: string)
    requires steps != [] && 1 <= n <= 3
    ensures var l := |steps| - 1;
            (exists m: nat, i: nat :: PassesAt(steps, n, m, i, id)) <==>
              || (exists m: nat, i: nat :: PassesAt(steps[..l], n, m, i, id))
              || (MovesOn(steps[l], steps[l].i, n) && At(Before(steps, l), steps[l].i, id, n))
  {
    hide PassesAt, At, RunFleet;
    var l := |steps| - 1;
    PassesStep(steps, n, id);
    if m: nat, i: nat :| PassesAt(steps[..l], n, m, i, id) {
      assert PassesAt(steps, n, m, i, id);
    }
    if m: nat, i: nat :| PassesAt(steps, n, m, i, id) {
      assert m < l ==> PassesAt(steps[..l], n, m, i, id);
    }
    assert PassesAt(steps, n, l, steps[l].i, id) <==> MovesOn(steps[l], steps[l].i, n) && At(Before(steps, l), steps[l].i, id, n);
  }

  lemma NothingPasses(id: string)
    ensures forall n: nat, m: nat, i: nat :: !PassesAt([], n, m, i, id)
    ensures RunFleet([]) == NEW_FLEET
  {
  }

  /** The last step passes a stage for its own instance only, and earlier passes stay passes. */
  lemma PassesStep(steps: seq<Step>, n: nat, id: string)
    requires steps != [] && 1 <= n <= 3
    ensures var l := |steps| - 1;
            && (forall i: nat :: PassesAt(steps, n, l, i, id) <==> i == steps[l].i && MovesOn(steps[l], i, n) && At(Before(steps, l), i, id, n))
            && (forall m: nat, i: nat :: PassesAt(steps[..l], n, m, i, id) <==> m < l && PassesAt(steps, n, m, i, id))
            && (forall m: nat, i: nat :: PassesAt(steps, n, m, i, id) ==> MovesOn(steps[m], i, n))
            && (forall m: nat, i: nat :: PassesAt(steps, n, m, i, id) ==> m <= l)
  {
    hide At, RunFleet;
    var l := |steps| - 1;
    BeforePrefix(steps, l);
    forall m: nat, i: nat
      ensures m < |steps| ==> (PassesAt(steps, n, m, i, id) <==> MovesOn(steps[m], i, n) && At(Before(steps, m), i, id, n))
      ensures m < l ==> (PassesAt(steps[..l], n, m, i, id) <==> PassesAt(steps, n, m, i, id))
    {
      if m < |steps| {
        PassesIff(steps, n, m, i, id);
      }
      if m < l {
        PassesIff(steps[..l], n, m, i, id);
      }
    }
  }

  /** Step k puts the id in the ledger for instance i, which is told so and tracks the event at step m without
      having crashed in between. */
  ghost predicate ClaimedThenTracked(steps: seq<Step>, k: nat, m: nat, i: nat, id: string) {
    && k < m < |steps| && ClaimsNow(Before(steps, k), steps[k], i, id)
    && steps[m] == TrackStep(i) && forall j :: k < j < m ==> steps[j] != Crash(i)
  }

  /** Exactly which events are folded into a baseline, over every interleaving: those whose claiming instance was
      answered and lived to track them. With DetectionAtMostOnce, these are folded in exactly once; every other event
      is folded in by nobody, however often it is redelivered. */
  lemma TrackedIff(steps: seq<Step>, id: string)
    ensures id in RunFleet(steps).tracked <==> exists k: nat, m: nat, i: nat :: ClaimedThenTracked(steps, k, m, i, id)
  {
    hide ClaimsNow, RunFleet;
    LoggedIff(steps, id);
    if m: nat, i: nat :| PassesAt(steps, 1, m, i, id) {
      var k: nat :| PassesAt(steps, 0, k, i, id) && FirstAfter(steps, i, 1, k, m);
      assert ClaimedThenTracked(steps, k, m, i, id);
    }
    if k: nat, m: nat, i: nat :| ClaimedThenTracked(steps, k, m, i, id) {
      FirstTrack(steps, k, m, i, id);
    }
  }

  lemma {:induction false} FirstTrack(steps: seq<Step>, k: nat, m: nat, i: nat, id: string)
    requires ClaimedThenTracked(steps, k, m, i, id)
    ensures exists n: nat :: PassesAt(steps, 1, n, i, id)
    decreases m
  {
    hide ClaimsNow, RunFleet;
    if j: nat :| k < j < m && steps[j] == TrackStep(i) {
      FirstTrack(steps, k, j, i, id);
    } else {
      assert PassesAt(steps, 0, k, i, id) && FirstAfter(steps, i, 1, k, m);
      assert PassesAt(steps, 1, m, i, id);
    }
  }

  // ---- How many copies land --------------------------------------------------

  function CountCopies(topic: seq<Copy>, id: string): nat {
    if topic == [] then 0
    else CountCopies(topic[..|topic|-1], id) + if topic[|topic|-1].eventId == id then 1 else 0
  }

  /** The copies of one call that land after step p. */
  function LateCopies(steps: seq<Step>, p: nat, call: nat): nat {
    if |steps| <= p + 1 then 0
    else LateCopies(steps[..|steps|-1], p, call) + if steps[|steps|-1].Late? && steps[|steps|-1].call == call then 1 else 0
  }

  lemma {:induction false} CountAppend(topic: seq<Copy>, more: seq<Copy>, id: string)
    requires forall k :: 0 <= k < |more| ==> more[k].eventId == more[0].eventId
    ensures CountCopies(topic + more, id) == CountCopies(topic, id) + if more != [] && more[0].eventId == id then |more| else 0
    decreases |more|
  {
    if more == [] {
      assert topic + more == topic;
    } else {
      var n := |more| - 1;
      CountAppend(topic, more[..n], id);
      assert (topic + more)[..|topic|+n] == topic + more[..n];
    }
  }

  lemma {:induction false} NoCopies(topic: seq<Copy>, id: string)
    requires forall k :: 0 <= k < |topic| ==> topic[k].eventId != id
    ensures CountCopies(topic, id) == 0
  {
    if topic == [] {
    } else {
      NoCopies(topic[..|topic|-1], id);
    }
  }

  lemma Uncalled(f: Fleet, id: string)
    requires Traceable(f) && id !in f.calls
    ensures CountCopies(f.topic, id) == 0
  {
    assert forall k :: 0 <= k < |f.topic| ==> f.topic[k].eventId in f.calls;
    NoCopies(f.topic, id);
  }

  /** What one more step adds to the copies of an event that has been called for. */
  lemma AdvanceCopies(f: Fleet, step: Step, id: string, call: nat)
    requires AtMostOnce(f) && call < |f.calls| && f.calls[call] == id
    ensures var f' := Advance(f, step);
            && call < |f'.calls| && f'.calls[call] == id
            && CountCopies(f'.topic, id) == CountCopies(f.topic, id) + if step.Late? && step.call == call then 1 else 0
  {
    hide CountCopies;
    if step.Late? && step.call < |f.calls| {
      CountAppend(f.topic, [Copy(step.call, f.calls[step.call])], id);
    } else if step.PublishStep? && step.i in f.stages && f.stages[step.i].Observed? && step.fires {
      var other := f.stages[step.i].r.event.id;
      assert InOrder(f, f.stages[step.i]);
      assert other != id by { assert id in f.calls; }
      CountAppend(f.topic, Landed(Copy(|f.calls|, other), step.report), id);
    }
  }

  /** The topic holds as many copies of an announced event as its one publishing call reported or left landed, and one
      for every copy that landed late. None is possible: the call may fail before anything lands. */
  lemma {:induction false} CopiesOfCall(steps: seq<Step>, p: nat, i: nat, id: string)
    requires AnnouncesAt(steps, p, i, id)
    ensures CountCopies(RunFleet(steps).topic, id)
         == steps[p].report.Landings() + LateCopies(steps, p, |Before(steps, p).calls|)
    ensures var call := |Before(steps, p).calls|;
            call < |RunFleet(steps).calls| && RunFleet(steps).calls[call] == id
    decreases |steps|
  {
    hide Advance, AtMostOnce, CountCopies, At, MovesOn, PassesAt;
    var l := |steps| - 1;
    RunNext(steps, l);
    BeforePrefix(steps, l);
    DetectionAtMostOnce(steps[..l]);
    PassesStep(steps, 3, id);
    assert p < l ==> AnnouncesAt(steps[..l], p, i, id);
    if p == l {
      CallLands(Before(steps, l), steps[l], i, id);
    } else {
      CopiesOfCall(steps[..l], p, i, id);
      AdvanceCopies(Before(steps, l), steps[l], id, |Before(steps, p).calls|);
    }
  }

  lemma CallLands(f: Fleet, step: Step, i: nat, id: string)
    requires AtMostOnce(f) && Traceable(f) && MovesOn(step, i, 3) && At(f, i, id, 3) && step.fires
    ensures var f' := Advance(f, step);
            && f'.calls == f.calls + [id] && CountCopies(f'.topic, id) == step.report.Landings()
  {
    hide CountCopies, NoRepeats;
    assert InOrder(f, f.stages[i]);
    Uncalled(f, id);
    CountAppend(f.topic, Landed(Copy(|f.calls|, id), step.report), id);
  }

  /** Exactly which events are announced, and how often: an event has a copy in the topic if and only if one instance
      claimed it, folded it in, and came without a crash to a publishing call that landed a copy in time or late. */
  lemma AnnouncedIff(steps: seq<Step>, id: string)
    ensures CountCopies(RunFleet(steps).topic, id) > 0 <==>
              exists p: nat, i: nat :: AnnouncesAt(steps, p, i, id)
                && steps[p].report.Landings() + LateCopies(steps, p, |Before(steps, p).calls|) > 0
  {
    hide RunFleet, PassesAt, CountCopies, LateCopies, AtMostOnce, Traceable;
    LoggedIff(steps, id);
    DetectionAtMostOnce(steps);
    if p: nat, i: nat :| AnnouncesAt(steps, p, i, id) {
      CopiesOfCall(steps, p, i, id);
      forall q: nat, j: nat | AnnouncesAt(steps, q, j, id)
        ensures CountCopies(RunFleet(steps).topic, id)
             == steps[q].report.Landings() + LateCopies(steps, q, |Before(steps, q).calls|)
      {
        CopiesOfCall(steps, q, j, id);
      }
    } else {
      Uncalled(RunFleet(steps), id);
    }
  }

  // ---- Runs that are not exactly once ----------------------------------------

  lemma RunTwo(steps: seq<Step>, x: Step, y: Step)
    ensures RunFleet(steps + [x, y]) == Advance(Advance(RunFleet(steps), x), y)
  {
    assert (steps + [x, y])[..|steps|+1] == steps + [x] && (steps + [x])[..|steps|] == steps;
  }

  /** An instance that crashes between the claim and the fold loses the event: its redelivery is a known duplicate. */
  lemma CrashLosesEvent(r: Reading)
    ensures var f := RunFleet([Receive(0, r), Claim(0, Answered), Crash(0), Receive(1, r), Claim(1, Answered), TrackStep(1)]);
            r.event.id in f.ledger && f.tracked == [] && f.calls == []
  {
    hide RunFleet;
    var p2 := [Receive(0, r), Claim(0, Answered)];
    var p4 := p2 + [Crash(0), Receive(1, r)];
    ClaimedFirst(r, Answered);
    RunTwo(p2, Crash(0), Receive(1, r));
    RunTwo(p4, Claim(1, Answered), TrackStep(1));
    var lost := Fleet({r.event.id}, map[0 := Idle, 1 := Received(r)], [], [], [], []);
    assert RunFleet(p4) == lost;
    assert p4 + [Claim(1, Answered), TrackStep(1)]
        == [Receive(0, r), Claim(0, Answered), Crash(0), Receive(1, r), Claim(1, Answered), TrackStep(1)];
  }

  /** So does a claim that takes effect and raises. */
  lemma LostAnswerLosesEvent(r: Reading)
    ensures var f := RunFleet([Receive(0, r), Claim(0, AnswerLost), Receive(0, r), Claim(0, Answered)]);
            r.event.id in f.ledger && f.stages[0 := Idle] == f.stages && f.tracked == [] && f.calls == []
  {
    hide RunFleet;
    var p2 := [Receive(0, r), Claim(0, AnswerLost)];
    ClaimedFirst(r, AnswerLost);
    RunTwo(p2, Receive(0, r), Claim(0, Answered));
    assert p2 + [Receive(0, r), Claim(0, Answered)] == [Receive(0, r), Claim(0, AnswerLost), Receive(0, r), Claim(0, Answered)];
  }

  lemma ClaimedFirst(r: Reading, how: Claiming)
    requires !how.Unreachable?
    ensures RunFleet([Receive(0, r), Claim(0, how)])
         == Fleet({r.event.id}, map[0 := if how.Answered? then Claimed(r) else Idle], [], [], [], [])
  {
    assert [] + [Receive(0, r), Claim(0, how)] == [Receive(0, r), Claim(0, how)];
    RunTwo([], Receive(0, r), Claim(0, how));
    hide RunFleet;
    assert Advance(NEW_FLEET, Receive(0, r)) == Fleet({}, map[0 := Received(r)], [], [], [], []);
  }

  /** One instance, one event, up to its publishing call. */
  function UpToCall(r: Reading): seq<Step> {
    [Receive(0, r), Claim(0, Answered), TrackStep(0), ObserveStep(0)]
  }

  lemma UpToCallState(r: Reading)
    ensures var id := r.event.id;
            RunFleet(UpToCall(r)) == Fleet({id}, map[0 := Observed(r)], [id], [id], [], [])
  {
    hide RunFleet;
    var steps := UpToCall(r);
    forall k: nat | k < |steps|
      ensures Before(steps, k + 1) == Advance(Before(steps, k), steps[k])
    {
      RunNext(steps, k);
    }
    RunNext(steps, 0);
    var id := r.event.id;
    assert Before(steps, 1) == Fleet({}, map[0 := Received(r)], [], [], [], []);
    assert Before(steps, 2) == Fleet({id}, map[0 := Claimed(r)], [], [], [], []);
    assert Before(steps, 3) == Fleet({id}, map[0 := Tracked(r)], [id], [], [], []);
  }

  /** A publishing call whose first attempt lands unconfirmed and late, beside the retry that succeeds. */
  lemma RetryLandsTwoCopies(r: Reading)
    ensures RunFleet(UpToCall(r) + [PublishStep(0, true, Confirmed(0)), Late(0, 0)]).topic
         == [Copy(0, r.event.id), Copy(0, r.event.id)]
  {
    hide RunFleet;
    UpToCallState(r);
    RunTwo(UpToCall(r), PublishStep(0, true, Confirmed(0)), Late(0, 0));
    assert Landed(Copy(0, r.event.id), Confirmed(0)) == [Copy(0, r.event.id)];
  }

  /** And one that lands nothing at all, with the event never announced again. */
  lemma FailedCallLandsNone(r: Reading)
    ensures var f := RunFleet(UpToCall(r) + [PublishStep(0, true, Unconfirmed(0)), Receive(0, r)]);
            f.calls == [r.event.id] && f.topic == [] && r.event.id in f.ledger
  {
    hide RunFleet;
    UpToCallState(r);
    RunTwo(UpToCall(r), PublishStep(0, true, Unconfirmed(0)), Receive(0, r));
  }
}
