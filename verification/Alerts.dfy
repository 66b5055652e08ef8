/**
 Alert deduplication, cooldown and escalation (services/alert-service/store.py, and the
 escalation sweep of services/alert-service/main.py).

 An alert's id is its position in the table. Times come from one clock.
 */
module Alerts {
  import opened Wrappers

  datatype Severity = Info | Warning | High | Critical

  datatype Status = Open | Acknowledged | Suppressed | Resolved

  datatype Scope = Scope(rule: string, dedupeKey: string)

  datatype Alert = Alert(scope: Scope, severity: Severity, status: Status, triggeredAt: int,
                         resolvedAt: Option<int>, level: nat, lastEscalatedAt: Option<int>)

  datatype Decision = Created | SuppressedOpen | SuppressedCooldown

  // ---- Creation --------------------------------------------------------------

  /** The newest alert of a scope. */
  function Latest(alerts: seq<Alert>, scope: Scope): (found: Option<nat>)
    ensures found.Some? ==> found.value < |alerts| && alerts[found.value].scope == scope
    ensures found.None? ==> forall i :: 0 <= i < |alerts| ==> alerts[i].scope != scope
    ensures found.Some? ==> forall i :: 0 <= i < |alerts| && alerts[i].scope == scope
                              ==> alerts[i].triggeredAt <= alerts[found.value].triggeredAt
  {
    if alerts == [] then None
    else
      var n := |alerts| - 1;
      var rest := Latest(alerts[..n], scope);
      if alerts[n].scope == scope && (rest.None? || alerts[rest.value].triggeredAt <= alerts[n].triggeredAt) then Some(n)
      else rest
  }

  predicate HasOpen(alerts: seq<Alert>, scope: Scope) {
    exists i :: 0 <= i < |alerts| && alerts[i].scope == scope && alerts[i].status.Open?
  }

  /** The verdict of the first statement: is an alert due, as far as the newest one tells? */
  function Check(alerts: seq<Alert>, scope: Scope, cooldown: int, now: int): Decision {
    var last := Latest(alerts, scope);
    if last.None? then Created
    else if alerts[last.value].status != Resolved then SuppressedOpen
    else if now - alerts[last.value].triggeredAt < cooldown then SuppressedCooldown
    else Created
  }

  function NewAlert(scope: Scope, severity: Severity, now: int): Alert {
    Alert(scope, severity, Open, now, None, 0, None)
  }

  /** The second statement: insert unless the partial unique index sees an open alert of the scope. */
  function Insert(alerts: seq<Alert>, scope: Scope, severity: Severity, now: int): (seq<Alert>, Decision) {
    if HasOpen(alerts, scope) then (alerts, SuppressedOpen)
    else (alerts + [NewAlert(scope, severity, now)], Created)
  }

  /** Both statements, run one after the other; the insert's clock reading may be later. */
  function CreateIfDue(alerts: seq<Alert>, scope: Scope, cooldown: int, severity: Severity, checkedAt: int, now: int)
    : (seq<Alert>, Decision)
  {
    var verdict := Check(alerts, scope, cooldown, checkedAt);
    if verdict != Created then (alerts, verdict) else Insert(alerts, scope, severity, now)
  }

  // ---- Escalation ------------------------------------------------------------

  /** One rung up the ladder WARNING, HIGH, CRITICAL; anything else stays. */
  function NextSeverity(current: Severity): Severity {
    match current
    case Warning => High
    case High => Critical
    case _ => current
  }

  predicate DueForEscalation(a: Alert, after: int, now: int) {
    && a.status.Open? && a.level < 2
    && (if a.lastEscalatedAt.Some? then a.lastEscalatedAt.value else a.triggeredAt) < now - after
  }

  predicate Escalates(a: Alert, after: int, now: int) {
    DueForEscalation(a, after, now) && NextSeverity(a.severity) != a.severity
  }

  function Escalated(a: Alert, now: int): Alert {
    a.(severity := NextSeverity(a.severity), level := a.level + 1, lastEscalatedAt := Some(now))
  }

  /** The sweep's update of this alert happens: it is due, and the update does not fail. */
  predicate Raised(a: Alert, id: nat, after: int, now: int, updates: map<nat, nat>) {
    Escalates(a, after, now) && id in updates
  }

  /** One sweep: every alert that is due moves up one rung. The updates that succeed are given
      with how long after the select each one runs. */
  function Sweep(alerts: seq<Alert>, after: int, now: int, updates: map<nat, nat>): (swept: seq<Alert>)
    ensures |swept| == |alerts|
    ensures forall i: nat :: i < |alerts| ==>
              swept[i] == if Raised(alerts[i], i, after, now, updates) then Escalated(alerts[i], now + updates[i]) else alerts[i]
  {
    seq(|alerts|, i requires 0 <= i < |alerts| =>
      if Raised(alerts[i], i, after, now, updates) then Escalated(alerts[i], now + updates[i]) else alerts[i])
  }

  // ---- The store -------------------------------------------------------------

  class AlertStore {
    var alerts: seq<Alert>

    constructor ()
      ensures alerts == []
    {
      alerts := [];
    }

    method CreateAlertIfDue(scope: Scope, cooldown: int, severity: Severity, checkedAt: int, now: int)
      returns (decision: Decision, id: Option<nat>)
      modifies this
      ensures (alerts, decision) == CreateIfDue(old(alerts), scope, cooldown, severity, checkedAt, now)
      ensures id == if decision == Created then Some(|old(alerts)|) else None
    {
      var last := Latest(alerts, scope);
      if last.Some? {
        if alerts[last.value].status != Resolved {
          return SuppressedOpen, None;
        }
        if checkedAt - alerts[last.value].triggeredAt < cooldown {
          return SuppressedCooldown, None;
        }
      }
      if HasOpen(alerts, scope) {
        return SuppressedOpen, None;
      }
      alerts := alerts + [NewAlert(scope, severity, now)];
      return Created, Some(|alerts| - 1);
    }

    method DueAlerts(after: int, now: int) returns (due: seq<nat>)
      ensures forall i: nat :: i in due <==>
                && i < |alerts| && alerts[i].status.Open? && alerts[i].level < 2
                && (if alerts[i].lastEscalatedAt.Some? then alerts[i].lastEscalatedAt.value else alerts[i].triggeredAt) < now - after
      ensures forall i, j :: 0 <= i < j < |due| ==> due[i] < due[j]
    {
      due := [];
      for i := 0 to |alerts|
        invariant forall k: nat :: k in due <==> k < i && DueForEscalation(alerts[k], after, now)
        invariant forall k, l :: 0 <= k < l < |due| ==> due[k] < due[l]
      {
        if DueForEscalation(alerts[i], after, now) {
          assert forall k :: 0 <= k < |due| ==> due[k] in due;
          due := due + [i];
        }
      }
    }

    method Escalate(id: nat, severity: Severity, now: int)
      requires id < |alerts|
      modifies this
      ensures alerts == old(alerts)[id := old(alerts)[id].(severity := severity, level := old(alerts)[id].level + 1,
                                                           lastEscalatedAt := Some(now))]
    {
      var a := alerts[id];
      alerts := alerts[id := a.(severity := severity, level := a.level + 1, lastEscalatedAt := Some(now))];
    }

    method RunSweep(after: int, now: int, updates: map<nat, nat>)
      modifies this
      ensures alerts == Sweep(old(alerts), after, now, updates)
    {
      ghost var before := alerts;
      var candidates := DueAlerts(after, now);
      assert forall i: nat :: i in candidates <==> i < |before| && DueForEscalation(before[i], after, now);
      for k := 0 to |candidates|
        invariant |alerts| == |before|
        invariant forall i: nat :: i < |before| ==>
                    alerts[i] == if i in candidates[..k] && Raised(before[i], i, after, now, updates)
                                 then Escalated(before[i], now + updates[i]) else before[i]
      {
        var id := candidates[k];
        assert id in candidates;
        assert candidates[..k+1] == candidates[..k] + [id];
        var severity := NextSeverity(alerts[id].severity);
        if severity != alerts[id].severity && id in updates {
          Escalate(id, severity, now + updates[id]);
        }
      }
      assert candidates[..|candidates|] == candidates;
    }
  }

  // ---- Runs ------------------------------------------------------------------

  /** Resolution is a step of the environment: no code path here performs it. */
  datatype Op =
    | Create(scope: Scope, severity: Severity, checkedAt: int, now: int)
    | Acknowledge(id: nat, now: int)
    | Resolve(id: nat, now: int)
    | SweepAll(now: int, updates: map<nat, nat>)

  function Apply(alerts: seq<Alert>, cooldown: Scope -> int, after: int, op: Op): seq<Alert> {
    match op
    case Create(scope, severity, checkedAt, now) => CreateIfDue(alerts, scope, cooldown(scope), severity, checkedAt, now).0
    case Acknowledge(id, _) =>
      if id < |alerts| && alerts[id].status.Open? then alerts[id := alerts[id].(status := Acknowledged)] else alerts
    case Resolve(id, now) =>
      if id < |alerts| && !alerts[id].status.Resolved? then alerts[id := alerts[id].(status := Resolved, resolvedAt := Some(now))]
      else alerts
    case SweepAll(now, updates) => Sweep(alerts, after, now, updates)
  }

  function Run(cooldown: Scope -> int, after: int, ops: seq<Op>): seq<Alert> {
    if ops == [] then [] else Apply(Run(cooldown, after, ops[..|ops|-1]), cooldown, after, ops[|ops|-1])
  }

  ghost predicate ClockMonotone(ops: seq<Op>) {
    && (forall i, j :: 0 <= i < j < |ops| ==> ops[i].now <= ops[j].now)
    && (forall i :: 0 <= i < |ops| && ops[i].Create? ==> ops[i].checkedAt <= ops[i].now)
  }

  // ---- Deduplication and cooldown --------------------------------------------

  /** Of two alerts of one scope, the earlier is resolved and at least a cooldown older. */
  ghost predicate Spaced(alerts: seq<Alert>, cooldown: Scope -> int) {
    forall i, j :: 0 <= i < j < |alerts| && alerts[i].scope == alerts[j].scope ==>
      alerts[i].status.Resolved? && alerts[j].triggeredAt >= alerts[i].triggeredAt + cooldown(alerts[i].scope)
  }

  lemma ApplySpaced(alerts: seq<Alert>, cooldown: Scope -> int, after: int, op: Op)
    requires Spaced(alerts, cooldown) && (op.Create? ==> op.checkedAt <= op.now && cooldown(op.scope) > 0)
    ensures Spaced(Apply(alerts, cooldown, after, op), cooldown)
  {
  }

  /** In every reachable state at most one alert of a scope is unresolved, it is the newest one,
      and successive alerts of a scope are at least the cooldown apart. */
  lemma {:induction false} RunSpaced(cooldown: Scope -> int, after: int, ops: seq<Op>)
    requires ClockMonotone(ops) && forall s :: cooldown(s) > 0
    ensures Spaced(Run(cooldown, after, ops), cooldown)
  {
    hide Apply, Spaced;
    if ops == [] {
      NothingSpaced(cooldown);
    } else {
      RunSpaced(cooldown, after, ops[..|ops|-1]);
      ApplySpaced(Run(cooldown, after, ops[..|ops|-1]), cooldown, after, ops[|ops|-1]);
    }
  }

  lemma NothingSpaced(cooldown: Scope -> int)
    ensures Spaced([], cooldown)
  {
  }

  /** In a reachable state, which verdict a call gets, told from all alerts of the scope: suppressed as open
      exactly when one is unresolved, as cooling down exactly when all are resolved but one is too recent. */
  lemma CreationDecision(alerts: seq<Alert>, cooldown: Scope -> int, scope: Scope, severity: Severity, checkedAt: int, now: int)
    requires Spaced(alerts, cooldown) && cooldown(scope) > 0
    ensures var decision := CreateIfDue(alerts, scope, cooldown(scope), severity, checkedAt, now).1;
            var unresolved := exists i :: 0 <= i < |alerts| && alerts[i].scope == scope && !alerts[i].status.Resolved?;
            var recent := exists i :: 0 <= i < |alerts| && alerts[i].scope == scope
                                      && checkedAt - alerts[i].triggeredAt < cooldown(scope);
            && (decision == SuppressedOpen <==> unresolved)
            && (decision == SuppressedCooldown <==> !unresolved && recent)
  {
    var last := Latest(alerts, scope);
    if last.Some? {
      assert forall i :: 0 <= i < |alerts| && alerts[i].scope == scope ==> i <= last.value;
    }
  }

  /** Alerts of a scope triggered within [lo, hi]. */
  function CountIn(alerts: seq<Alert>, scope: Scope, lo: int, hi: int): nat {
    if alerts == [] then 0
    else
      var a := alerts[|alerts|-1];
      CountIn(alerts[..|alerts|-1], scope, lo, hi) + if a.scope == scope && lo <= a.triggeredAt <= hi then 1 else 0
  }

  /** Counted alerts are a cooldown apart, so the latest of them bounds their number. */
  lemma {:induction false} CountSpan(alerts: seq<Alert>, cooldown: Scope -> int, scope: Scope, lo: int, hi: int)
    requires Spaced(alerts, cooldown) && cooldown(scope) > 0
    ensures CountIn(alerts, scope, lo, hi) > 0 ==>
              exists i :: 0 <= i < |alerts| && alerts[i].scope == scope && lo <= alerts[i].triggeredAt <= hi
                && (CountIn(alerts, scope, lo, hi) - 1) * cooldown(scope) <= alerts[i].triggeredAt - lo
  {
    if alerts == [] {
    } else {
      var n := |alerts| - 1;
      var a, c := alerts[n], cooldown(scope);
      CountSpan(alerts[..n], cooldown, scope, lo, hi);
      var before := CountIn(alerts[..n], scope, lo, hi);
      if before > 0 {
        var i :| 0 <= i < n && alerts[..n][i].scope == scope && lo <= alerts[..n][i].triggeredAt <= hi
                 && (before - 1) * c <= alerts[..n][i].triggeredAt - lo;
        assert alerts[..n][i] == alerts[i];
        OneMoreSpan(before, c, alerts[i].triggeredAt - lo);
      }
    }
  }

  lemma OneMoreSpan(k: int, c: int, span: int)
    requires (k - 1) * c <= span
    ensures (k + 1 - 1) * c <= span + c
  {
  }

  /** Any interval of length d holds at most floor(d / cooldown) + 1 alerts of a scope. */
  lemma AlertRateBound(cooldown: Scope -> int, after: int, ops: seq<Op>, scope: Scope, lo: int, d: nat)
    requires ClockMonotone(ops) && forall s :: cooldown(s) > 0
    ensures CountIn(Run(cooldown, after, ops), scope, lo, lo + d) <= d / cooldown(scope) + 1
  {
    hide Run, CountIn, Spaced;
    var alerts, c := Run(cooldown, after, ops), cooldown(scope);
    RunSpaced(cooldown, after, ops);
    CountSpan(alerts, cooldown, scope, lo, lo + d);
    var n := CountIn(alerts, scope, lo, lo + d);
    if n > 0 {
      SpanBound(n - 1, c, d);
    }
  }

  lemma SpanBound(k: nat, c: int, d: nat)
    requires c > 0 && k * c <= d
    ensures k <= d / c
  {
    assert d < (d / c + 1) * c;
    FactorOrder(k, d / c + 1, c);
  }

  lemma FactorOrder(p: int, q: int, c: int)
    requires c > 0 && p * c < q * c
    ensures p < q
  {
    if q <= p {
      FactorMonotone(q, p, c);
    }
  }

  lemma FactorMonotone(p: int, q: int, c: int)
    requires c > 0 && p <= q
    ensures p * c <= q * c
  {
  }

  // ---- The escalation ladder -------------------------------------------------

  function Rank(s: Severity): int {
    match s
    case Info => -1
    case Warning => 0
    case High => 1
    case Critical => 2
  }

  /** The severity an alert was created with, read off the run that created it. */
  function InitialSeverity(cooldown: Scope -> int, after: int, ops: seq<Op>, id: nat): Severity {
    if ops == [] then Info
    else
      var n := |ops| - 1;
      var alerts, alerts' := Run(cooldown, after, ops[..n]), Run(cooldown, after, ops);
      if |alerts| <= id < |alerts'| then alerts'[id].severity else InitialSeverity(cooldown, after, ops[..n], id)
  }

  /** The times at which sweeps escalated the alert, oldest first. */
  function Escalations(cooldown: Scope -> int, after: int, ops: seq<Op>, id: nat): seq<int> {
    if ops == [] then []
    else
      var n := |ops| - 1;
      var alerts := Run(cooldown, after, ops[..n]);
      Escalations(cooldown, after, ops[..n], id)
        + if ops[n].SweepAll? && id < |alerts| && Raised(alerts[id], id, after, ops[n].now, ops[n].updates)
          then [ops[n].now + ops[n].updates[id]] else []
  }

  /** Escalation times lie more than the waiting time apart, the first one after triggering. */
  ghost predicate WellSpread(times: seq<int>, triggeredAt: int, after: int) {
    && (times != [] ==> times[0] > triggeredAt + after)
    && forall i :: 0 < i < |times| ==> times[i] > times[i-1] + after
  }

  /** How an alert stands to the severity it started with and to its escalation times. */
  ghost predicate OnLadder(a: Alert, initial: Severity, times: seq<int>, after: int) {
    && a.level == |times| && WellSpread(times, a.triggeredAt, after)
    && a.lastEscalatedAt == (if times == [] then None else Some(times[|times|-1]))
    && (if initial.Info? then a.severity.Info? && times == []
        else Rank(a.severity) == Rank(initial) + a.level && 0 <= Rank(a.severity) <= 2)
  }

  lemma OnLadderStep(a: Alert, initial: Severity, times: seq<int>, after: int, now: int, stamp: int)
    requires OnLadder(a, initial, times, after) && Escalates(a, after, now) && now <= stamp
    ensures OnLadder(Escalated(a, stamp), initial, times + [stamp], after)
  {
  }

  predicate SameButStatus(a: Alert, b: Alert) {
    a.(status := b.status, resolvedAt := b.resolvedAt) == b
  }

  lemma ApplyOther(alerts: seq<Alert>, cooldown: Scope -> int, after: int, op: Op, id: nat)
    requires id < |alerts|
    ensures var alerts' := Apply(alerts, cooldown, after, op);
            && |alerts| <= |alerts'|
            && (if op.SweepAll? && Raised(alerts[id], id, after, op.now, op.updates)
                then alerts'[id] == Escalated(alerts[id], op.now + op.updates[id])
                else SameButStatus(alerts[id], alerts'[id]))
            && (alerts'[id].status.Open? ==> alerts[id].status.Open?)
  {
    hide Check, HasOpen, DueForEscalation, NextSeverity;
  }

  lemma ApplyGrows(alerts: seq<Alert>, cooldown: Scope -> int, after: int, op: Op, id: nat)
    requires |alerts| <= id < |Apply(alerts, cooldown, after, op)|
    ensures id == |alerts| && op.Create?
    ensures Apply(alerts, cooldown, after, op)[id] == NewAlert(op.scope, op.severity, op.now)
  {
  }

  /** Along every run an alert's severity is its initial one raised once per escalation, never past
      CRITICAL, and its escalations lie more than the waiting time apart. INFO alerts never move. */
  lemma {:induction false} RunOnLadder(cooldown: Scope -> int, after: int, ops: seq<Op>, id: nat)
    requires id < |Run(cooldown, after, ops)|
    ensures OnLadder(Run(cooldown, after, ops)[id], InitialSeverity(cooldown, after, ops, id),
                     Escalations(cooldown, after, ops, id), after)
  {
    hide Apply, Raised, OnLadder;
    var n := |ops| - 1;
    var alerts, alerts' := Run(cooldown, after, ops[..n]), Run(cooldown, after, ops);
    if id < |alerts| {
      RunOnLadder(cooldown, after, ops[..n], id);
      ApplyOther(alerts, cooldown, after, ops[n], id);
      var initial, times := InitialSeverity(cooldown, after, ops[..n], id), Escalations(cooldown, after, ops[..n], id);
      if ops[n].SweepAll? && Raised(alerts[id], id, after, ops[n].now, ops[n].updates) {
        RaisedEscalates(alerts[id], id, after, ops[n].now, ops[n].updates);
        OnLadderStep(alerts[id], initial, times, after, ops[n].now, ops[n].now + ops[n].updates[id]);
      } else {
        assert Escalations(cooldown, after, ops, id) == times;
        StatusOffLadder(alerts[id], alerts'[id], initial, times, after);
      }
    } else {
      ApplyGrows(alerts, cooldown, after, ops[n], id);
      NotYetEscalated(cooldown, after, ops[..n], id);
      assert Escalations(cooldown, after, ops, id) == [];
      FreshOnLadder(alerts'[id], after);
    }
  }

  lemma RaisedEscalates(a: Alert, id: nat, after: int, now: int, updates: map<nat, nat>)
    requires Raised(a, id, after, now, updates)
    ensures Escalates(a, after, now) && id in updates
  {
  }

  lemma StatusOffLadder(a: Alert, b: Alert, initial: Severity, times: seq<int>, after: int)
    requires SameButStatus(a, b) && OnLadder(a, initial, times, after)
    ensures OnLadder(b, initial, times, after)
  {
  }

  lemma FreshOnLadder(a: Alert, after: int)
    requires a.level == 0 && a.lastEscalatedAt.None?
    ensures OnLadder(a, a.severity, [], after)
  {
  }

  lemma {:induction false} NotYetEscalated(cooldown: Scope -> int, after: int, ops: seq<Op>, id: nat)
    requires |Run(cooldown, after, ops)| <= id
    ensures Escalations(cooldown, after, ops, id) == []
  {
    hide Apply;
    if ops == [] {
    } else {
      var n := |ops| - 1;
      NeverShrinks(Run(cooldown, after, ops[..n]), cooldown, after, ops[n]);
      NotYetEscalated(cooldown, after, ops[..n], id);
    }
  }

  lemma NeverShrinks(alerts: seq<Alert>, cooldown: Scope -> int, after: int, op: Op)
    ensures |alerts| <= |Apply(alerts, cooldown, after, op)|
  {
  }

  /** On the ladder, a sweep raises exactly the OPEN alerts below CRITICAL whose waiting time has passed:
      the guard on the level never holds one back. */
  lemma EscalatesIff(a: Alert, initial: Severity, times: seq<int>, after: int, now: int)
    requires OnLadder(a, initial, times, after)
    ensures Escalates(a, after, now)
            <==> a.status.Open? && a.severity in {Warning, High}
                 && (if times == [] then a.triggeredAt else times[|times|-1]) + after < now
  {
  }

  /** What a sweep does to one alert, told from its fields: an OPEN alert at WARNING or HIGH that was last touched more
      than the waiting time ago, and whose update does not fail, moves up one severity and one level and is stamped with
      the time of its update; every other alert is left as it is. */
  lemma SweepRaisesIff(alerts: seq<Alert>, after: int, now: int, updates: map<nat, nat>, i: nat)
    requires i < |alerts|
    ensures var a, b := alerts[i], Sweep(alerts, after, now, updates)[i];
            var touched := if a.lastEscalatedAt.Some? then a.lastEscalatedAt.value else a.triggeredAt;
            if a.status.Open? && a.level < 2 && a.severity in {Warning, High} && touched + after < now && i in updates
            then && Rank(b.severity) == Rank(a.severity) + 1 && b.level == a.level + 1
                 && b.lastEscalatedAt == Some(now + updates[i])
                 && b.(severity := a.severity, level := a.level, lastEscalatedAt := a.lastEscalatedAt) == a
            else b == a
  {
  }

  /** What a call does to the table: a created alert is the one addition, OPEN, fresh, and of the given scope and severity;
      a suppressed call adds nothing. */
  lemma CreationEffect(alerts: seq<Alert>, scope: Scope, cooldown: int, severity: Severity, checkedAt: int, now: int)
    ensures var (alerts', decision) := CreateIfDue(alerts, scope, cooldown, severity, checkedAt, now);
            if decision == Created
            then && |alerts'| == |alerts| + 1 && alerts'[..|alerts|] == alerts
                 && var a := alerts'[|alerts|];
                    && a.scope == scope && a.severity == severity && a.status.Open? && a.triggeredAt == now
                    && a.resolvedAt.None? && a.level == 0 && a.lastEscalatedAt.None?
            else alerts' == alerts
  {
  }

  /** Once an alert is no longer OPEN, no later sweep escalates it. */
  lemma {:induction false} NotOpenNeverEscalates(cooldown: Scope -> int, after: int, ops: seq<Op>, k: nat, id: nat)
    requires k <= |ops| && id < |Run(cooldown, after, ops[..k])| && !Run(cooldown, after, ops[..k])[id].status.Open?
    ensures id < |Run(cooldown, after, ops)| && !Run(cooldown, after, ops)[id].status.Open?
    ensures Escalations(cooldown, after, ops, id) == Escalations(cooldown, after, ops[..k], id)
    decreases |ops|
  {
    hide Apply;
    if k == |ops| {
      assert ops[..k] == ops;
    } else {
      var n := |ops| - 1;
      assert ops[..n][..k] == ops[..k];
      NotOpenNeverEscalates(cooldown, after, ops[..n], k, id);
      ApplyOther(Run(cooldown, after, ops[..n]), cooldown, after, ops[n], id);
    }
  }

  // ---- Cooldown since resolution ---------------------------------------------

  /** The verdict the documentation describes: the cooldown counts from the newest alert's resolution. */
  function DocumentedCheck(alerts: seq<Alert>, scope: Scope, cooldown: int, now: int): Decision {
    var last := Latest(alerts, scope);
    if last.None? then Created
    else if alerts[last.value].status != Resolved then SuppressedOpen
    else if alerts[last.value].resolvedAt.Some? && now - alerts[last.value].resolvedAt.value < cooldown then SuppressedCooldown
    else Created
  }

  /** Alerts trigger by now, and a resolved one was resolved between its triggering and now. */
  ghost predicate Stamped(alerts: seq<Alert>, now: int) {
    forall i :: 0 <= i < |alerts| ==>
      && alerts[i].triggeredAt <= now
      && (alerts[i].status.Resolved? ==> alerts[i].resolvedAt.Some? && alerts[i].triggeredAt <= alerts[i].resolvedAt.value <= now)
  }

  lemma ApplyStamped(alerts: seq<Alert>, cooldown: Scope -> int, after: int, op: Op)
    requires Stamped(alerts, op.now)
    ensures Stamped(Apply(alerts, cooldown, after, op), op.now)
  {
  }

  lemma StampedLater(alerts: seq<Alert>, now: int, later: int)
    requires Stamped(alerts, now) && now <= later
    ensures Stamped(alerts, later)
  {
  }

  lemma {:induction false} RunStamped(cooldown: Scope -> int, after: int, ops: seq<Op>, now: int)
    requires ClockMonotone(ops) && (ops != [] ==> ops[|ops|-1].now <= now)
    ensures Stamped(Run(cooldown, after, ops), now)
  {
    hide Apply, Stamped;
    if ops == [] {
      assert Stamped([], now) by { NothingStamped(now); }
    } else {
      var n := |ops| - 1;
      RunStamped(cooldown, after, ops[..n], ops[n].now);
      ApplyStamped(Run(cooldown, after, ops[..n]), cooldown, after, ops[n]);
      StampedLater(Run(cooldown, after, ops), ops[n].now, now);
    }
  }

  lemma NothingStamped(now: int)
    ensures Stamped([], now)
  {
  }

  /** The code's cooldown counts from triggering. It lets through exactly the alerts that arrive a cooldown after
      the newest one triggered but within a cooldown of its resolution, and never refuses what the documentation
      would let through. */
  lemma CooldownDiffersIff(cooldown: Scope -> int, after: int, ops: seq<Op>, scope: Scope, now: int)
    requires ClockMonotone(ops) && (ops != [] ==> ops[|ops|-1].now <= now)
    ensures var alerts := Run(cooldown, after, ops);
            var last := Latest(alerts, scope);
            var code, documented := Check(alerts, scope, cooldown(scope), now), DocumentedCheck(alerts, scope, cooldown(scope), now);
            && (code != documented <==>
                  && last.Some? && alerts[last.value].status.Resolved?
                  && alerts[last.value].triggeredAt + cooldown(scope) <= now
                  && alerts[last.value].resolvedAt.Some? && now < alerts[last.value].resolvedAt.value + cooldown(scope))
            && (code != documented ==> code == Created && documented == SuppressedCooldown)
  {
    hide Run;
    RunStamped(cooldown, after, ops, now);
  }

  /** A run that shows it: an alert triggers, stays unresolved for a cooldown, and is resolved;
      the next one is created in the same instant. */
  lemma CreatedOnResolution(cooldown: Scope -> int, after: int, scope: Scope, severity: Severity)
    requires cooldown(scope) > 0
    ensures var c := cooldown(scope);
            var ops := [Create(scope, severity, 0, 0), Resolve(0, c)];
            var alerts := Run(cooldown, after, ops);
            && ClockMonotone(ops)
            && Check(alerts, scope, c, c) == Created && DocumentedCheck(alerts, scope, c, c) == SuppressedCooldown
  {
    var c := cooldown(scope);
    var ops := [Create(scope, severity, 0, 0), Resolve(0, c)];
    assert ops[..1] == [Create(scope, severity, 0, 0)] && ops[..1][..0] == [];
    assert Run(cooldown, after, ops[..1]) == [NewAlert(scope, severity, 0)];
    var resolved := NewAlert(scope, severity, 0).(status := Resolved, resolvedAt := Some(c));
    assert Run(cooldown, after, ops) == [resolved];
    assert Latest([resolved], scope) == Some(0);
  }
}
