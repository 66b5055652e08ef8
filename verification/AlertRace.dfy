/**
 Alert creation and escalation by several instances at once (services/alert-service/store.py and main.py).

 A creating call is two SQL statements, a check and an insert. A sweep is a select and
 then one update an alert, whose new severity is computed from what the select read.
 Statements of any number of instances interleave with each other and with people
 acknowledging and resolving alerts.
 */
module AlertRace {
  import opened Alerts

  /** A call that has passed its check and not yet inserted. */
  datatype Call = Call(scope: Scope, severity: Severity)

  /** The shared table, with the severity each alert was created at; the calls between their two statements; and for
      each sweeper the severities its select read of the alerts it has not updated yet. */
  datatype Fleet = Fleet(alerts: seq<Alert>, initial: seq<Severity>, due: map<nat, Call>, sweeps: map<nat, map<nat, Severity>>)

  const NEW_FLEET := Fleet([], [], map[], map[])

  /** One atomic statement. An update that fails is a step not taken. */
  datatype Step =
    | CheckStep(call: nat, scope: Scope, severity: Severity, now: int)
    | InsertStep(call: nat, now: int)
    | ScanStep(sweeper: nat, now: int)
    | RaiseStep(sweeper: nat, id: nat, now: int)
    | AcknowledgeStep(id: nat, now: int)
    | ResolveStep(id: nat, now: int)

  /** The sweeper has read the alert and not yet updated it. */
  predicate Reading(f: Fleet, w: nat, id: nat) {
    w in f.sweeps && id in f.sweeps[w]
  }

  /** The sweeper has yet to update the alert, and its update will raise it. */
  predicate Raises(f: Fleet, sweeper: nat, id: nat) {
    && id < |f.alerts| && Reading(f, sweeper, id)
    && NextSeverity(f.sweeps[sweeper][id]) != f.sweeps[sweeper][id]
  }

  function Advance(f: Fleet, cooldown: Scope -> int, after: int, step: Step): Fleet {
    match step
    case CheckStep(c, scope, severity, now) =>
      if c !in f.due && Check(f.alerts, scope, cooldown(scope), now) == Created then f.(due := f.due[c := Call(scope, severity)])
      else f
    case InsertStep(c, now) =>
      if c !in f.due then f
      else
        var (alerts, verdict) := Insert(f.alerts, f.due[c].scope, f.due[c].severity, now);
        f.(alerts := alerts, initial := if verdict == Created then f.initial + [f.due[c].severity] else f.initial, due := f.due - {c})
    case ScanStep(w, now) =>
      f.(sweeps := f.sweeps[w := map id: nat | id < |f.alerts| && DueForEscalation(f.alerts[id], after, now) :: f.alerts[id].severity])
    case RaiseStep(w, id, now) =>
      if !Raises(f, w, id) then f
      else
        var raised := Escalated(f.alerts[id], now).(severity := NextSeverity(f.sweeps[w][id]));
        f.(alerts := f.alerts[id := raised], sweeps := f.sweeps[w := f.sweeps[w] - {id}])
    case AcknowledgeStep(id, now) => f.(alerts := Apply(f.alerts, cooldown, after, Acknowledge(id, now)))
    case ResolveStep(id, now) => f.(alerts := Apply(f.alerts, cooldown, after, Resolve(id, now)))
  }

  function Run(cooldown: Scope -> int, after: int, steps: seq<Step>): Fleet {
    if steps == [] then NEW_FLEET else Advance(Run(cooldown, after, steps[..|steps|-1]), cooldown, after, steps[|steps|-1])
  }

  /** The state before step k; at k == |steps|, the final state. */
  function Before(cooldown: Scope -> int, after: int, steps: seq<Step>, k: nat): Fleet
    requires k <= |steps|
  {
    Run(cooldown, after, steps[..k])
  }

  lemma BeforePrefix(cooldown: Scope -> int, after: int, steps: seq<Step>, n: nat)
    requires n <= |steps|
    ensures forall k :: 0 <= k <= n ==> Before(cooldown, after, steps[..n], k) == Before(cooldown, after, steps, k)
  {
    forall k | 0 <= k <= n
      ensures Before(cooldown, after, steps[..n], k) == Before(cooldown, after, steps, k)
    {
      assert steps[..n][..k] == steps[..k];
    }
  }

  lemma RunNext(cooldown: Scope -> int, after: int, steps: seq<Step>, k: nat)
    requires k < |steps|
    ensures Before(cooldown, after, steps, 0) == NEW_FLEET
    ensures Before(cooldown, after, steps, k + 1) == Advance(Before(cooldown, after, steps, k), cooldown, after, steps[k])
    ensures Before(cooldown, after, steps, |steps|) == Run(cooldown, after, steps)
  {
    assert steps[..k+1][..k] == steps[..k];
    assert steps[..|steps|] == steps;
  }

  /** A creating call that nothing interrupts is the serial one. */
  lemma UninterruptedIsSerial(f: Fleet, cooldown: Scope -> int, after: int, c: nat, scope: Scope, severity: Severity,
                              checkedAt: int, now: int)
    requires c !in f.due
    ensures var checked := Advance(f, cooldown, after, CheckStep(c, scope, severity, checkedAt));
            Advance(checked, cooldown, after, InsertStep(c, now)).alerts
            == CreateIfDue(f.alerts, scope, cooldown(scope), severity, checkedAt, now).0
  {
    hide Check, HasOpen;
  }

  /** A sweep of one candidate after another that nothing interrupts. */
  function RaiseAll(f: Fleet, cooldown: Scope -> int, after: int, w: nat, updates: map<nat, nat>, now: int, k: nat): Fleet {
    if k == 0 then f
    else
      var g := RaiseAll(f, cooldown, after, w, updates, now, k - 1);
      if k - 1 in updates then Advance(g, cooldown, after, RaiseStep(w, k - 1, now + updates[k-1])) else g
  }

  /** The alerts below k are swept, the others are as they were and still to be raised. */
  ghost predicate SweptBelow(f: Fleet, g: Fleet, after: int, now: int, updates: map<nat, nat>, w: nat, k: nat) {
    && |g.alerts| == |f.alerts|
    && (forall i: nat :: i < |f.alerts| ==>
          g.alerts[i] == if i < k && Raised(f.alerts[i], i, after, now, updates) then Escalated(f.alerts[i], now + updates[i])
                         else f.alerts[i])
    && (forall i: nat :: k <= i < |f.alerts| ==>
          (Reading(g, w, i) <==> DueForEscalation(f.alerts[i], after, now))
          && (Reading(g, w, i) ==> g.sweeps[w][i] == f.alerts[i].severity))
  }

  lemma {:induction false} RaisesBelow(f: Fleet, g0: Fleet, cooldown: Scope -> int, after: int, w: nat, updates: map<nat, nat>,
                                       now: int, k: nat)
    requires k <= |f.alerts| && SweptBelow(f, g0, after, now, updates, w, 0)
    ensures SweptBelow(f, RaiseAll(g0, cooldown, after, w, updates, now, k), after, now, updates, w, k)
  {
    hide SweptBelow, Advance;
    if k == 0 {
    } else {
      RaisesBelow(f, g0, cooldown, after, w, updates, now, k - 1);
      RaisesOne(f, RaiseAll(g0, cooldown, after, w, updates, now, k - 1), cooldown, after, w, updates, now, k - 1);
    }
  }

  lemma RaisesOne(f: Fleet, g: Fleet, cooldown: Scope -> int, after: int, w: nat, updates: map<nat, nat>, now: int, k: nat)
    requires k < |f.alerts| && SweptBelow(f, g, after, now, updates, w, k)
    ensures var g' := if k in updates then Advance(g, cooldown, after, RaiseStep(w, k, now + updates[k])) else g;
            SweptBelow(f, g', after, now, updates, w, k + 1)
  {
    hide Raised, Advance;
    assert g.alerts[k] == f.alerts[k] && (Reading(g, w, k) <==> DueForEscalation(f.alerts[k], after, now));
    RaisedIff(f, g, after, w, updates, now, k);
    if k in updates {
      RaiseOne(g, cooldown, after, w, k, now + updates[k]);
    }
  }

  lemma RaisedIff(f: Fleet, g: Fleet, after: int, w: nat, updates: map<nat, nat>, now: int, k: nat)
    requires k < |f.alerts| && |g.alerts| == |f.alerts|
    requires Reading(g, w, k) <==> DueForEscalation(f.alerts[k], after, now)
    requires Reading(g, w, k) ==> g.sweeps[w][k] == f.alerts[k].severity
    ensures Raised(f.alerts[k], k, after, now, updates) <==> k in updates && Raises(g, w, k)
  {
    hide DueForEscalation, NextSeverity;
  }

  /** What one update does to the table and to what its sweeper has still to raise. */
  lemma RaiseOne(g: Fleet, cooldown: Scope -> int, after: int, w: nat, k: nat, now: int)
    ensures var g' := Advance(g, cooldown, after, RaiseStep(w, k, now));
            if Raises(g, w, k)
            then && g'.alerts == g.alerts[k := Escalated(g.alerts[k], now).(severity := NextSeverity(g.sweeps[w][k]))]
                 && forall i: nat :: i != k ==> (Reading(g', w, i) <==> Reading(g, w, i))
                                                && (Reading(g, w, i) ==> g'.sweeps[w][i] == g.sweeps[w][i])
            else g' == g
  {
    hide NextSeverity, Escalated;
  }

  /** A whole sweep that nothing interrupts is the serial one. */
  lemma UninterruptedSweepIsSerial(f: Fleet, cooldown: Scope -> int, after: int, w: nat, updates: map<nat, nat>, now: int)
    ensures var scanned := Advance(f, cooldown, after, ScanStep(w, now));
            RaiseAll(scanned, cooldown, after, w, updates, now, |f.alerts|).alerts == Sweep(f.alerts, after, now, updates)
  {
    hide Advance, Raised, Escalated, RaiseAll;
    var scanned := Advance(f, cooldown, after, ScanStep(w, now));
    ScanReadsAll(f, cooldown, after, w, updates, now);
    RaisesBelow(f, scanned, cooldown, after, w, updates, now, |f.alerts|);
    assert RaiseAll(scanned, cooldown, after, w, updates, now, |f.alerts|).alerts == Sweep(f.alerts, after, now, updates);
  }

  lemma ScanReadsAll(f: Fleet, cooldown: Scope -> int, after: int, w: nat, updates: map<nat, nat>, now: int)
    ensures SweptBelow(f, Advance(f, cooldown, after, ScanStep(w, now)), after, now, updates, w, 0)
  {
    hide DueForEscalation, Raised, Escalated;
  }

  // ---- At most one open alert ------------------------------------------------

  ghost predicate OneOpen(alerts: seq<Alert>) {
    forall i, j :: 0 <= i < j < |alerts| && alerts[i].scope == alerts[j].scope ==>
      !(alerts[i].status.Open? && alerts[j].status.Open?)
  }

  lemma AdvanceOneOpen(f: Fleet, cooldown: Scope -> int, after: int, step: Step)
    requires OneOpen(f.alerts)
    ensures OneOpen(Advance(f, cooldown, after, step).alerts)
  {
  }

  /** Whatever the interleaving, and whatever the clocks show, at most one alert of a scope is OPEN. */
  lemma {:induction false} AlwaysOneOpen(cooldown: Scope -> int, after: int, steps: seq<Step>)
    ensures OneOpen(Run(cooldown, after, steps).alerts)
  {
    hide Advance;
    if steps == [] {
    } else {
      AlwaysOneOpen(cooldown, after, steps[..|steps|-1]);
      AdvanceOneOpen(Run(cooldown, after, steps[..|steps|-1]), cooldown, after, steps[|steps|-1]);
    }
  }

  // ---- Spacing ---------------------------------------------------------------

  /** An insert that succeeds keeps the spacing exactly when its check, made again at that instant, would pass. */
  lemma InsertKeepsSpacedIff(alerts: seq<Alert>, cooldown: Scope -> int, scope: Scope, severity: Severity, now: int)
    requires Spaced(alerts, cooldown) && cooldown(scope) > 0
    ensures Spaced(Insert(alerts, scope, severity, now).0, cooldown)
            <==> HasOpen(alerts, scope) || Check(alerts, scope, cooldown(scope), now) == Created
  {
    var last := Latest(alerts, scope);
    if last.Some? && !HasOpen(alerts, scope) {
      assert forall i :: 0 <= i < |alerts| && alerts[i].scope == scope ==> i <= last.value;
      var alerts' := Insert(alerts, scope, severity, now).0;
      assert alerts'[last.value] == alerts[last.value] && alerts'[|alerts|] == NewAlert(scope, severity, now);
    }
  }

  /** The step is an insert that succeeds although its check, made again now, would not pass. */
  ghost predicate InsertsTooSoon(f: Fleet, cooldown: Scope -> int, step: Step) {
    && step.InsertStep? && step.call in f.due
    && var scope := f.due[step.call].scope;
       !HasOpen(f.alerts, scope) && Check(f.alerts, scope, cooldown(scope), step.now) != Created
  }

  lemma AdvanceSpacedIff(f: Fleet, cooldown: Scope -> int, after: int, step: Step)
    requires Spaced(f.alerts, cooldown) && (forall s :: cooldown(s) > 0)
    ensures Spaced(Advance(f, cooldown, after, step).alerts, cooldown) <==> !InsertsTooSoon(f, cooldown, step)
  {
    hide Check, Apply, Insert, Spaced;
    match step
    case InsertStep(c, now) =>
      if c in f.due {
        InsertKeepsSpacedIff(f.alerts, cooldown, f.due[c].scope, f.due[c].severity, now);
      }
    case RaiseStep(w, id, now) =>
      if Raises(f, w, id) {
        EscalationKeepsSpaced(f.alerts, cooldown, id, Escalated(f.alerts[id], now).(severity := NextSeverity(f.sweeps[w][id])));
      }
    case AcknowledgeStep(id, now) => ApplySpaced(f.alerts, cooldown, after, Acknowledge(id, now));
    case ResolveStep(id, now) => ApplySpaced(f.alerts, cooldown, after, Resolve(id, now));
    case _ =>
  }

  lemma EscalationKeepsSpaced(alerts: seq<Alert>, cooldown: Scope -> int, id: nat, a: Alert)
    requires Spaced(alerts, cooldown) && id < |alerts|
    requires a.scope == alerts[id].scope && a.status == alerts[id].status && a.triggeredAt == alerts[id].triggeredAt
    ensures Spaced(alerts[id := a], cooldown)
  {
  }

  ghost predicate AlwaysSpaced(cooldown: Scope -> int, after: int, steps: seq<Step>) {
    forall k :: 0 <= k <= |steps| ==> Spaced(Before(cooldown, after, steps, k).alerts, cooldown)
  }

  ghost predicate NoInsertTooSoon(cooldown: Scope -> int, after: int, steps: seq<Step>) {
    forall k :: 0 <= k < |steps| ==> !InsertsTooSoon(Before(cooldown, after, steps, k), cooldown, steps[k])
  }

  /** Over every interleaving, the spacing holds throughout if and only if every successful insert's check would
      still have passed at the moment of the insert. */
  lemma {:induction false} SpacedIff(cooldown: Scope -> int, after: int, steps: seq<Step>)
    requires forall s :: cooldown(s) > 0
    ensures AlwaysSpaced(cooldown, after, steps) <==> NoInsertTooSoon(cooldown, after, steps)
  {
    hide Advance, Run, Spaced, InsertsTooSoon;
    if steps == [] {
      assert Before(cooldown, after, steps, 0) == NEW_FLEET by { RunNone(cooldown, after); }
      NothingSpaced(cooldown);
    } else {
      var n := |steps| - 1;
      SpacedIff(cooldown, after, steps[..n]);
      BeforePrefix(cooldown, after, steps, n);
      RunNext(cooldown, after, steps, n);
      var f := Before(cooldown, after, steps, n);
      assert AlwaysSpaced(cooldown, after, steps) <==>
             AlwaysSpaced(cooldown, after, steps[..n]) && Spaced(Before(cooldown, after, steps, n + 1).alerts, cooldown);
      assert NoInsertTooSoon(cooldown, after, steps) <==>
             NoInsertTooSoon(cooldown, after, steps[..n]) && !InsertsTooSoon(f, cooldown, steps[n]);
      if Spaced(f.alerts, cooldown) {
        AdvanceSpacedIff(f, cooldown, after, steps[n]);
      }
    }
  }

  lemma RunNone(cooldown: Scope -> int, after: int)
    ensures Run(cooldown, after, []) == NEW_FLEET
  {
  }

  /** And two instances can break it: both check before either inserts, the first alert is acknowledged in between,
      and the scope ends with two unresolved alerts and no cooldown between them. */
  lemma RacingInstancesBreakCooldown(scope: Scope, severity: Severity, cooldown: Scope -> int, after: int, now: int)
    requires cooldown(scope) > 0
    ensures var steps := [CheckStep(1, scope, severity, now), CheckStep(2, scope, severity, now), InsertStep(1, now),
                          AcknowledgeStep(0, now), InsertStep(2, now)];
            var alerts := Run(cooldown, after, steps).alerts;
            |alerts| == 2 && !alerts[0].status.Resolved? && !alerts[1].status.Resolved? && !Spaced(alerts, cooldown)
  {
    hide Run;
    var call, first := Call(scope, severity), NewAlert(scope, severity, now);
    var acked := first.(status := Acknowledged);
    var steps := [CheckStep(1, scope, severity, now), CheckStep(2, scope, severity, now), InsertStep(1, now),
                  AcknowledgeStep(0, now), InsertStep(2, now)];
    RunNext(cooldown, after, steps, 0);
    RunNext(cooldown, after, steps, 1);
    RunNext(cooldown, after, steps, 2);
    RunNext(cooldown, after, steps, 3);
    RunNext(cooldown, after, steps, 4);
    assert Before(cooldown, after, steps, 1) == Fleet([], [], map[1 := call], map[]);
    assert Before(cooldown, after, steps, 2) == Fleet([], [], map[1 := call, 2 := call], map[]);
    assert Before(cooldown, after, steps, 3) == Fleet([first], [severity], map[2 := call], map[]);
    assert Before(cooldown, after, steps, 4) == Fleet([acked], [severity], map[2 := call], map[]);
    assert Before(cooldown, after, steps, 5) == Fleet([acked, first], [severity, severity], map[], map[]);
    assert acked.scope == first.scope;
  }

  // ---- The ladder ------------------------------------------------------------

  /** One rung up for every escalation, and never off the top. */
  ghost predicate OnRung(a: Alert, initial: Severity) {
    if initial.Info? then a.severity.Info? && a.level == 0 else Rank(a.severity) == Rank(initial) + a.level
  }

  ghost predicate AllOnRung(f: Fleet) {
    |f.initial| == |f.alerts| && forall id :: 0 <= id < |f.alerts| ==> OnRung(f.alerts[id], f.initial[id])
  }

  /** What sweepers have read is no higher than what is there now. */
  ghost predicate ReadEarlier(f: Fleet) {
    forall w: nat, id: nat :: Reading(f, w, id) ==> ReadBelow(f, w, id)
  }

  predicate ReadBelow(f: Fleet, w: nat, id: nat)
    requires Reading(f, w, id)
  {
    && id < |f.alerts| && Rank(f.sweeps[w][id]) <= Rank(f.alerts[id].severity)
    && (f.sweeps[w][id].Info? <==> f.alerts[id].severity.Info?)
  }

  /** The step raises an alert that another sweeper has raised since it was read. */
  predicate RaisesStale(f: Fleet, step: Step) {
    step.RaiseStep? && Raises(f, step.sweeper, step.id) && f.alerts[step.id].severity != f.sweeps[step.sweeper][step.id]
  }

  /** Any step but a raise leaves severities and levels alone, and new alerts start at the bottom. */
  lemma AdvanceKeepsRungs(f: Fleet, cooldown: Scope -> int, after: int, step: Step)
    requires AllOnRung(f) && ReadEarlier(f) && !step.RaiseStep?
    ensures AllOnRung(Advance(f, cooldown, after, step)) && ReadEarlier(Advance(f, cooldown, after, step))
  {
    hide Check, DueForEscalation, HasOpen, Rank;
    var f' := Advance(f, cooldown, after, step);
    assert forall id :: 0 <= id < |f.alerts| ==> f'.alerts[id].severity == f.alerts[id].severity;
    forall w: nat, id: nat | Reading(f', w, id)
      ensures ReadBelow(f', w, id)
    {
      if !(step.ScanStep? && w == step.sweeper) {
        assert Reading(f, w, id) && ReadBelow(f, w, id);
      }
    }
  }

  /** A raise that is not stale lifts the alert above everything read before it. */
  lemma FreshRaiseKeepsReads(f: Fleet, cooldown: Scope -> int, after: int, step: Step)
    requires ReadEarlier(f) && step.RaiseStep? && Raises(f, step.sweeper, step.id) && !RaisesStale(f, step)
    ensures ReadEarlier(Advance(f, cooldown, after, step))
  {
    var f' := Advance(f, cooldown, after, step);
    forall w: nat, id: nat | Reading(f', w, id)
      ensures ReadBelow(f', w, id)
    {
      assert Reading(f, w, id) && ReadBelow(f, w, id) && f'.sweeps[w][id] == f.sweeps[w][id];
    }
  }

  lemma AdvanceRungIff(f: Fleet, cooldown: Scope -> int, after: int, step: Step)
    requires AllOnRung(f) && ReadEarlier(f)
    ensures AllOnRung(Advance(f, cooldown, after, step)) <==> !RaisesStale(f, step)
    ensures !RaisesStale(f, step) ==> ReadEarlier(Advance(f, cooldown, after, step))
  {
    if !step.RaiseStep? {
      hide Advance, AllOnRung, ReadEarlier;
      AdvanceKeepsRungs(f, cooldown, after, step);
    } else if Raises(f, step.sweeper, step.id) {
      var f' := Advance(f, cooldown, after, step);
      assert OnRung(f.alerts[step.id], f.initial[step.id]);
      assert AllOnRung(f') <==> OnRung(f'.alerts[step.id], f'.initial[step.id]);
      if !RaisesStale(f, step) {
        FreshRaiseKeepsReads(f, cooldown, after, step);
      }
    }
  }

  ghost predicate AlwaysOnRung(cooldown: Scope -> int, after: int, steps: seq<Step>) {
    forall k :: 0 <= k <= |steps| ==> AllOnRung(Before(cooldown, after, steps, k))
  }

  ghost predicate NoStaleRaise(cooldown: Scope -> int, after: int, steps: seq<Step>) {
    forall k :: 0 <= k < |steps| ==> !RaisesStale(Before(cooldown, after, steps, k), steps[k])
  }

  /** Over every interleaving, each alert stays one rung up for every escalation if and only if every update finds
      the severity that its sweep's select read. */
  lemma {:induction false} OnRungIff(cooldown: Scope -> int, after: int, steps: seq<Step>)
    ensures AlwaysOnRung(cooldown, after, steps) <==> NoStaleRaise(cooldown, after, steps)
    ensures NoStaleRaise(cooldown, after, steps) ==> ReadEarlier(Run(cooldown, after, steps))
  {
    hide Advance, Run, AllOnRung, ReadEarlier, RaisesStale;
    if steps == [] {
      assert Before(cooldown, after, steps, 0) == NEW_FLEET == Run(cooldown, after, steps) by { RunNone(cooldown, after); }
      NothingRaised();
    } else {
      var n := |steps| - 1;
      OnRungIff(cooldown, after, steps[..n]);
      BeforePrefix(cooldown, after, steps, n);
      RunNext(cooldown, after, steps, n);
      var f := Before(cooldown, after, steps, n);
      assert AlwaysOnRung(cooldown, after, steps) <==>
             AlwaysOnRung(cooldown, after, steps[..n]) && AllOnRung(Before(cooldown, after, steps, n + 1));
      assert NoStaleRaise(cooldown, after, steps) <==>
             NoStaleRaise(cooldown, after, steps[..n]) && !RaisesStale(f, steps[n]);
      if NoStaleRaise(cooldown, after, steps[..n]) {
        assert AllOnRung(Before(cooldown, after, steps[..n], n));
        AdvanceRungIff(f, cooldown, after, steps[n]);
      }
    }
  }

  lemma NothingRaised()
    ensures AllOnRung(NEW_FLEET) && ReadEarlier(NEW_FLEET)
  {
  }

  ghost predicate OneSweeper(steps: seq<Step>, w: nat) {
    forall k :: 0 <= k < |steps| && (steps[k].ScanStep? || steps[k].RaiseStep?) ==> steps[k].sweeper == w
  }

  /** A lone sweeper's reads are what is still there, and nobody else has any. */
  ghost predicate ReadsCurrent(f: Fleet, w: nat) {
    && (forall v: nat :: v in f.sweeps ==> v == w)
    && (w in f.sweeps ==> forall id: nat :: id in f.sweeps[w] ==> id < |f.alerts| && f.sweeps[w][id] == f.alerts[id].severity)
  }

  lemma AdvanceReadsCurrent(f: Fleet, cooldown: Scope -> int, after: int, step: Step, w: nat)
    requires ReadsCurrent(f, w) && (step.ScanStep? || step.RaiseStep? ==> step.sweeper == w)
    ensures ReadsCurrent(Advance(f, cooldown, after, step), w)
  {
    hide Check, DueForEscalation, HasOpen;
  }

  lemma {:induction false} LoneSweeperReadsCurrent(cooldown: Scope -> int, after: int, steps: seq<Step>, w: nat)
    requires OneSweeper(steps, w)
    ensures ReadsCurrent(Run(cooldown, after, steps), w)
    ensures NoStaleRaise(cooldown, after, steps)
  {
    hide Advance, Run, RaisesStale;
    if steps == [] {
      RunNone(cooldown, after);
    } else {
      var n := |steps| - 1;
      LoneSweeperReadsCurrent(cooldown, after, steps[..n], w);
      BeforePrefix(cooldown, after, steps, n);
      RunNext(cooldown, after, steps, n);
      var f := Before(cooldown, after, steps, n);
      AdvanceReadsCurrent(f, cooldown, after, steps[n], w);
      CurrentIsNotStale(f, steps[n], w);
    }
  }

  lemma CurrentIsNotStale(f: Fleet, step: Step, w: nat)
    requires ReadsCurrent(f, w) && (step.RaiseStep? ==> step.sweeper == w)
    ensures !RaisesStale(f, step)
  {
  }

  /** So with one sweeping instance the ladder holds at every moment, whoever creates, acknowledges and resolves
      alerts between its statements; in particular no level exceeds two. */
  lemma LoneSweeperKeepsLadder(cooldown: Scope -> int, after: int, steps: seq<Step>, w: nat, id: nat)
    requires OneSweeper(steps, w) && id < |Run(cooldown, after, steps).alerts|
    ensures var f := Run(cooldown, after, steps);
            |f.initial| == |f.alerts| && OnRung(f.alerts[id], f.initial[id]) && f.alerts[id].level <= 2
  {
    hide Run;
    LoneSweeperReadsCurrent(cooldown, after, steps, w);
    OnRungIff(cooldown, after, steps);
    assert steps[..|steps|] == steps;
    assert AllOnRung(Before(cooldown, after, steps, |steps|));
  }

  // ---- How far apart one alert is raised -------------------------------------

  /** The times at which updates raise the alert, oldest first. */
  function RaiseTimes(cooldown: Scope -> int, after: int, steps: seq<Step>, id: nat): seq<int> {
    if steps == [] then []
    else
      var n := |steps| - 1;
      RaiseTimes(cooldown, after, steps[..n], id)
        + if steps[n].RaiseStep? && steps[n].id == id && Raises(Run(cooldown, after, steps[..n]), steps[n].sweeper, id)
          then [steps[n].now] else []
  }

  ghost predicate ClockMonotone(steps: seq<Step>) {
    forall i, j :: 0 <= i < j < |steps| ==> steps[i].now <= steps[j].now
  }

  /** When the alert was last raised, or triggered. */
  function LastTouched(a: Alert): int {
    if a.lastEscalatedAt.Some? then a.lastEscalatedAt.value else a.triggeredAt
  }

  /** The alert's raises so far lie more than the waiting time apart, and a sweeper that has read it did so when it had
      waited that long. */
  ghost predicate Spread(f: Fleet, w: nat, id: nat, times: seq<int>, after: int, clock: int) {
    if id >= |f.alerts| then times == [] && !Reading(f, w, id)
    else
      && WellSpread(times, f.alerts[id].triggeredAt, after)
      && LastTouched(f.alerts[id]) == (if times == [] then f.alerts[id].triggeredAt else times[|times|-1])
      && (Reading(f, w, id) ==> LastTouched(f.alerts[id]) + after < clock)
  }

  lemma AdvanceSpread(f: Fleet, cooldown: Scope -> int, after: int, step: Step, w: nat, id: nat, times: seq<int>, clock: int)
    requires Spread(f, w, id, times, after, clock) && ReadsCurrent(f, w) && clock <= step.now
    requires step.ScanStep? || step.RaiseStep? ==> step.sweeper == w
    ensures var raised := step.RaiseStep? && step.id == id && Raises(f, step.sweeper, id);
            Spread(Advance(f, cooldown, after, step), w, id, times + if raised then [step.now] else [], after, step.now)
  {
    if step.RaiseStep? && step.id == id && Raises(f, step.sweeper, id) {
      RaiseSpread(f, cooldown, after, step, id, times, clock);
    } else {
      assert times + [] == times;
      QuietSpread(f, cooldown, after, step, w, id, times, clock);
    }
  }

  lemma RaiseSpread(f: Fleet, cooldown: Scope -> int, after: int, step: Step, id: nat, times: seq<int>, clock: int)
    requires step.RaiseStep? && step.id == id && Raises(f, step.sweeper, id) && clock <= step.now
    requires Spread(f, step.sweeper, id, times, after, clock)
    ensures Spread(Advance(f, cooldown, after, step), step.sweeper, id, times + [step.now], after, step.now)
  {
    hide NextSeverity;
  }

  /** Any other step leaves the alert's times alone. */
  lemma TimesStay(f: Fleet, cooldown: Scope -> int, after: int, step: Step, id: nat)
    requires id < |f.alerts| && !(step.RaiseStep? && step.id == id && Raises(f, step.sweeper, id))
    ensures var f' := Advance(f, cooldown, after, step);
            && id < |f'.alerts| && f'.alerts[id].triggeredAt == f.alerts[id].triggeredAt
            && f'.alerts[id].lastEscalatedAt == f.alerts[id].lastEscalatedAt
  {
    hide Check, HasOpen, DueForEscalation, NextSeverity;
  }

  lemma NewIsUntouched(f: Fleet, cooldown: Scope -> int, after: int, step: Step, id: nat)
    requires |f.alerts| <= id < |Advance(f, cooldown, after, step).alerts|
    ensures Advance(f, cooldown, after, step).alerts[id].lastEscalatedAt.None? && step.InsertStep?
  {
    hide Check, HasOpen, DueForEscalation, NextSeverity;
  }

  lemma QuietSpread(f: Fleet, cooldown: Scope -> int, after: int, step: Step, w: nat, id: nat, times: seq<int>, clock: int)
    requires Spread(f, w, id, times, after, clock) && clock <= step.now
    requires !(step.RaiseStep? && step.id == id && Raises(f, step.sweeper, id))
    ensures Spread(Advance(f, cooldown, after, step), w, id, times, after, step.now)
  {
    hide Advance, WellSpread, Reading, Raises;
    var f' := Advance(f, cooldown, after, step);
    if Reading(f', w, id) {
      AdvanceCandidate(f, cooldown, after, step, w, id);
    }
    if id < |f.alerts| {
      TimesStay(f, cooldown, after, step, id);
    } else if id < |f'.alerts| {
      NewIsUntouched(f, cooldown, after, step, id);
      assert WellSpread([], f'.alerts[id].triggeredAt, after) by { NoTimes(f'.alerts[id].triggeredAt, after); }
    }
  }

  lemma NoTimes(triggeredAt: int, after: int)
    ensures WellSpread([], triggeredAt, after)
  {
  }

  /** With one sweeping instance and a monotone clock, any two raises of an alert lie more than the waiting time apart,
      and the first lies as far from its triggering, whatever runs between the sweep's statements. */
  lemma {:induction false} LoneSweeperWaits(cooldown: Scope -> int, after: int, steps: seq<Step>, w: nat, id: nat)
    requires OneSweeper(steps, w) && ClockMonotone(steps)
    ensures var f, clock := Run(cooldown, after, steps), if steps == [] then 0 else steps[|steps|-1].now;
            Spread(f, w, id, RaiseTimes(cooldown, after, steps, id), after, clock)
  {
    hide Advance, Spread, Raises;
    if steps == [] {
      assert Spread(NEW_FLEET, w, id, [], after, 0) by { NothingSpread(w, id, after, 0); }
    } else {
      var n := |steps| - 1;
      var f, times := Run(cooldown, after, steps[..n]), RaiseTimes(cooldown, after, steps[..n], id);
      LoneSweeperWaits(cooldown, after, steps[..n], w, id);
      LoneSweeperReadsCurrent(cooldown, after, steps[..n], w);
      if n == 0 {
        NothingSpread(w, id, after, steps[n].now);
        assert f == NEW_FLEET && times == [];
        AdvanceSpread(f, cooldown, after, steps[n], w, id, times, steps[n].now);
      } else {
        AdvanceSpread(f, cooldown, after, steps[n], w, id, times, steps[n-1].now);
      }
    }
  }

  lemma NothingSpread(w: nat, id: nat, after: int, clock: int)
    ensures Spread(NEW_FLEET, w, id, [], after, clock)
  {
  }

  // ---- Escalating what is no longer open -------------------------------------

  /** The sweeper's next update of the alert falls on one that somebody has acknowledged or resolved. */
  predicate RaisesClosed(f: Fleet, w: nat, id: nat) {
    Raises(f, w, id) && !f.alerts[id].status.Open?
  }

  /** Step i is the sweeper's select, and it found the alert due. */
  ghost predicate ScannedAt(cooldown: Scope -> int, after: int, steps: seq<Step>, w: nat, id: nat, i: nat)
    requires i < |steps|
  {
    && steps[i].ScanStep? && steps[i].sweeper == w
    && id < |Before(cooldown, after, steps, i).alerts|
    && DueForEscalation(Before(cooldown, after, steps, i).alerts[id], after, steps[i].now)
    && (forall k :: i < k < |steps| ==> !(steps[k].ScanStep? && steps[k].sweeper == w))
  }

  /** Step k takes the alert out of OPEN. */
  ghost predicate LeavesOpenAt(cooldown: Scope -> int, after: int, steps: seq<Step>, id: nat, k: nat)
    requires k < |steps|
  {
    && (steps[k].AcknowledgeStep? || steps[k].ResolveStep?) && steps[k].id == id
    && id < |Before(cooldown, after, steps, k).alerts| && Before(cooldown, after, steps, k).alerts[id].status.Open?
  }

  ghost predicate LeftOpenSince(cooldown: Scope -> int, after: int, steps: seq<Step>, id: nat, i: nat) {
    exists k :: i < k < |steps| && LeavesOpenAt(cooldown, after, steps, id, k)
  }

  lemma AdvanceStatus(f: Fleet, cooldown: Scope -> int, after: int, step: Step, id: nat)
    requires id < |f.alerts|
    ensures |f.alerts| <= |Advance(f, cooldown, after, step).alerts|
    ensures Advance(f, cooldown, after, step).alerts[id].status.Open?
            <==> f.alerts[id].status.Open? && !((step.AcknowledgeStep? || step.ResolveStep?) && step.id == id)
  {
    hide Check, DueForEscalation, HasOpen;
  }

  lemma AdvanceCandidate(f: Fleet, cooldown: Scope -> int, after: int, step: Step, w: nat, id: nat)
    requires Reading(Advance(f, cooldown, after, step), w, id)
    ensures if step.ScanStep? && step.sweeper == w
            then id < |f.alerts| && DueForEscalation(f.alerts[id], after, step.now)
            else Reading(f, w, id)
  {
    hide Check, DueForEscalation, HasOpen, Insert;
  }

  /** A candidate was due at the sweeper's last select, and is still OPEN unless it was acknowledged or resolved since. */
  lemma {:induction false} CandidateHistory(cooldown: Scope -> int, after: int, steps: seq<Step>, w: nat, id: nat)
    requires Reading(Run(cooldown, after, steps), w, id)
    ensures exists i :: 0 <= i < |steps| && ScannedAt(cooldown, after, steps, w, id, i)
              && id < |Run(cooldown, after, steps).alerts|
              && (Run(cooldown, after, steps).alerts[id].status.Open? <==> !LeftOpenSince(cooldown, after, steps, id, i))
    decreases |steps|
  {
    hide Advance, Run, DueForEscalation;
    if steps == [] {
      RunNone(cooldown, after);
    } else {
      var n := |steps| - 1;
      BeforePrefix(cooldown, after, steps, n);
      RunNext(cooldown, after, steps, n);
      var f := Before(cooldown, after, steps, n);
      AdvanceCandidate(f, cooldown, after, steps[n], w, id);
      if steps[n].ScanStep? && steps[n].sweeper == w {
        AdvanceStatus(f, cooldown, after, steps[n], id);
        DueIsOpen(f.alerts[id], after, steps[n].now);
        assert ScannedAt(cooldown, after, steps, w, id, n);
      } else {
        CandidateHistory(cooldown, after, steps[..n], w, id);
        var i :| 0 <= i < n && ScannedAt(cooldown, after, steps[..n], w, id, i)
          && id < |f.alerts| && (f.alerts[id].status.Open? <==> !LeftOpenSince(cooldown, after, steps[..n], id, i));
        AdvanceStatus(f, cooldown, after, steps[n], id);
        assert ScannedAt(cooldown, after, steps, w, id, i);
        LeftOpenStep(cooldown, after, steps, id, i);
      }
    }
  }

  lemma DueIsOpen(a: Alert, after: int, now: int)
    requires DueForEscalation(a, after, now)
    ensures a.status.Open?
  {
  }

  lemma LeftOpenStep(cooldown: Scope -> int, after: int, steps: seq<Step>, id: nat, i: nat)
    requires i < |steps| - 1
    ensures LeftOpenSince(cooldown, after, steps, id, i)
            <==> LeftOpenSince(cooldown, after, steps[..|steps|-1], id, i) || LeavesOpenAt(cooldown, after, steps, id, |steps| - 1)
  {
    hide Run;
    var n := |steps| - 1;
    BeforePrefix(cooldown, after, steps, n);
    assert forall k :: 0 <= k < n ==> (LeavesOpenAt(cooldown, after, steps[..n], id, k) <==> LeavesOpenAt(cooldown, after, steps, id, k));
    if k :| i < k < n && LeavesOpenAt(cooldown, after, steps[..n], id, k) {
      assert LeavesOpenAt(cooldown, after, steps, id, k);
    }
  }

  /** The update does not look at the status again. It raises an alert that is no longer OPEN exactly when that alert
      was acknowledged or resolved between the sweep's select, which found it due, and the update. */
  lemma RaisesClosedIff(cooldown: Scope -> int, after: int, steps: seq<Step>, w: nat, id: nat)
    requires Raises(Run(cooldown, after, steps), w, id)
    ensures RaisesClosed(Run(cooldown, after, steps), w, id)
            <==> exists i, k :: 0 <= i < k < |steps| && ScannedAt(cooldown, after, steps, w, id, i)
                                && LeavesOpenAt(cooldown, after, steps, id, k)
  {
    hide Run, ScannedAt, LeavesOpenAt;
    CandidateHistory(cooldown, after, steps, w, id);
    var i :| 0 <= i < |steps| && ScannedAt(cooldown, after, steps, w, id, i)
      && (Run(cooldown, after, steps).alerts[id].status.Open? <==> !LeftOpenSince(cooldown, after, steps, id, i));
    forall j | 0 <= j < |steps| && ScannedAt(cooldown, after, steps, w, id, j)
      ensures j == i
    {
      OneLastScan(cooldown, after, steps, w, id, i, j);
    }
  }

  lemma OneLastScan(cooldown: Scope -> int, after: int, steps: seq<Step>, w: nat, id: nat, i: nat, j: nat)
    requires i < |steps| && j < |steps|
    requires ScannedAt(cooldown, after, steps, w, id, i) && ScannedAt(cooldown, after, steps, w, id, j)
    ensures i == j
  {
  }

  // ---- What races do to a sweep ----------------------------------------------

  /** One alert, created at time 0. */
  function Opening(scope: Scope, severity: Severity): seq<Step> {
    [CheckStep(0, scope, severity, 0), InsertStep(0, 0)]
  }

  lemma OpeningState(scope: Scope, severity: Severity, cooldown: Scope -> int, after: int)
    ensures Run(cooldown, after, Opening(scope, severity)) == Fleet([NewAlert(scope, severity, 0)], [severity], map[], map[])
  {
    hide Run;
    var steps := Opening(scope, severity);
    RunNext(cooldown, after, steps, 0);
    RunNext(cooldown, after, steps, 1);
    assert Before(cooldown, after, steps, 1) == Fleet([], [], map[0 := Call(scope, severity)], map[]);
    assert Before(cooldown, after, steps, 2) == Fleet([NewAlert(scope, severity, 0)], [severity], map[], map[]);
  }

  lemma RunAppend(cooldown: Scope -> int, after: int, steps: seq<Step>, step: Step)
    ensures Run(cooldown, after, steps + [step]) == Advance(Run(cooldown, after, steps), cooldown, after, step)
  {
  }

  lemma RunFour(cooldown: Scope -> int, after: int, steps: seq<Step>, p: Step, q: Step, r: Step, s: Step)
    ensures Run(cooldown, after, steps + [p, q, r, s])
         == Advance(Advance(Advance(Advance(Run(cooldown, after, steps), cooldown, after, p), cooldown, after, q),
                            cooldown, after, r), cooldown, after, s)
  {
    hide Advance, Run;
    RunAppend(cooldown, after, steps, p);
    RunAppend(cooldown, after, steps + [p], q);
    RunAppend(cooldown, after, steps + [p] + [q], r);
    RunAppend(cooldown, after, steps + [p] + [q] + [r], s);
    assert steps + [p, q, r, s] == steps + [p] + [q] + [r] + [s];
  }

  lemma ScanOne(a: Alert, initial: seq<Severity>, sweeps: map<nat, map<nat, Severity>>, cooldown: Scope -> int, after: int, w: nat, now: int)
    requires DueForEscalation(a, after, now)
    ensures Advance(Fleet([a], initial, map[], sweeps), cooldown, after, ScanStep(w, now))
         == Fleet([a], initial, map[], sweeps[w := map[0 := a.severity]])
  {
    var f := Fleet([a], initial, map[], sweeps);
    var read: map<nat, Severity> := map[0 := a.severity];
    assert Advance(f, cooldown, after, ScanStep(w, now)).sweeps[w] == read;
  }

  /** An alert acknowledged between the sweep's select and its update is raised all the same. */
  lemma AcknowledgedIsRaised(scope: Scope, cooldown: Scope -> int, after: nat)
    ensures var now := after + 1;
            var steps := Opening(scope, Warning) + [ScanStep(1, now), AcknowledgeStep(0, now)];
            var f := Run(cooldown, after, steps + [RaiseStep(1, 0, now)]);
            && RaisesClosed(Run(cooldown, after, steps), 1, 0)
            && |f.alerts| == 1 && f.alerts[0].status.Acknowledged? && f.alerts[0].severity == High && f.alerts[0].level == 1
  {
    hide Run;
    var now, a := after + 1, NewAlert(scope, Warning, 0);
    var steps := Opening(scope, Warning) + [ScanStep(1, now), AcknowledgeStep(0, now)];
    OpeningState(scope, Warning, cooldown, after);
    ScanOne(a, [Warning], map[], cooldown, after, 1, now);
    RunAppend(cooldown, after, Opening(scope, Warning), ScanStep(1, now));
    RunAppend(cooldown, after, Opening(scope, Warning) + [ScanStep(1, now)], AcknowledgeStep(0, now));
    RunAppend(cooldown, after, steps, RaiseStep(1, 0, now));
    assert Opening(scope, Warning) + [ScanStep(1, now)] + [AcknowledgeStep(0, now)] == steps;
    assert Run(cooldown, after, steps) == Fleet([a.(status := Acknowledged)], [Warning], map[], map[1 := map[0 := Warning]]);
  }

  /** Two sweepers that both read before either writes push an alert one rung up and count two. */
  lemma RacingSweepersLeaveLadder(scope: Scope, cooldown: Scope -> int, after: nat)
    ensures var now := after + 1;
            var steps := Opening(scope, Warning) + [ScanStep(1, now), ScanStep(2, now), RaiseStep(1, 0, now), RaiseStep(2, 0, now)];
            var f := Run(cooldown, after, steps);
            |f.alerts| == 1 && f.alerts[0].severity == High && f.alerts[0].level == 2
  {
    hide Run;
    var now, a := after + 1, NewAlert(scope, Warning, 0);
    var read: map<nat, Severity> := map[0 := Warning];
    OpeningState(scope, Warning, cooldown, after);
    RunFour(cooldown, after, Opening(scope, Warning), ScanStep(1, now), ScanStep(2, now), RaiseStep(1, 0, now), RaiseStep(2, 0, now));
    ScanOne(a, [Warning], map[], cooldown, after, 1, now);
    ScanOne(a, [Warning], map[1 := read], cooldown, after, 2, now);
    var f2 := Fleet([a], [Warning], map[], map[1 := read, 2 := read]);
    assert map[1 := read][2 := read] == map[1 := read, 2 := read];
    var raised := Escalated(a, now);
    var f3 := Fleet([raised], [Warning], map[], map[1 := map[], 2 := read]);
    assert Advance(f2, cooldown, after, RaiseStep(1, 0, now)) == f3;
    assert Raises(f3, 2, 0);
  }
}
