/**
 The incident lifecycle and its audit trail (shared/incidents.py), one operation at a time.

 An incident's id is its position in the table. Rows are never deleted. The row and
 its event are written by two statements, each with its own clock reading: now for
 the row, loggedAt for the event.
 */
module Incidents {
  import opened Wrappers

  datatype Status = Open | Acknowledged | Investigating | Resolved | Closed

  /** The statuses the partial unique index ranges over. */
  predicate Active(s: Status) {
    s.Open? || s.Acknowledged? || s.Investigating?
  }

  const VALID_TRANSITIONS: map<Status, set<Status>> :=
    map[Open := {Acknowledged, Investigating, Resolved},
        Acknowledged := {Investigating, Resolved},
        Investigating := {Resolved},
        Resolved := {Closed, Investigating},
        Closed := {}]

  predicate IsValidTransition(from: Status, to: Status) {
    from in VALID_TRANSITIONS && to in VALID_TRANSITIONS[from]
  }

  datatype AlertRef = AlertRef(id: string, machine: string, severity: string, title: string)

  datatype Incident = Incident(alert: AlertRef, status: Status, assignedTo: string, notes: string,
                               openedAt: int, resolvedAt: Option<int>, closedAt: Option<int>)

  datatype Change = StatusChange(before: Option<Status>, after: Status) | Assignment(user: string) | AlertAttached(alert: AlertRef)

  datatype Event = Event(incident: nat, change: Change, actor: Option<string>, at: int)

  datatype Error = NotFound | InvalidTransition(from: Status, to: Status) | ActiveIncidentExists

  datatype Table = Table(incidents: seq<Incident>, events: seq<Event>)

  const EMPTY := Table([], [])

  // ---- Queries ---------------------------------------------------------------

  predicate ActiveOn(inc: Incident, machine: string) {
    Active(inc.status) && inc.alert.machine == machine
  }

  /** The active incident of a machine, other than the one at skip. */
  function FindActive(incidents: seq<Incident>, machine: string, skip: int): (found: Option<nat>)
    ensures found.Some? ==> found.value < |incidents| && found.value != skip && ActiveOn(incidents[found.value], machine)
    ensures found.None? ==> forall i :: 0 <= i < |incidents| && i != skip ==> !ActiveOn(incidents[i], machine)
  {
    if incidents == [] then None
    else
      var n := |incidents| - 1;
      if n != skip && ActiveOn(incidents[n], machine) then Some(n) else FindActive(incidents[..n], machine, skip)
  }

  // ---- Operations on the table -----------------------------------------------

  function LogEvent(t: Table, id: nat, change: Change, actor: Option<string>, loggedAt: int): Table {
    t.(events := t.events + [Event(id, change, actor, loggedAt)])
  }

  function NewIncident(alert: AlertRef, now: int): Incident {
    Incident(alert, Open, "", "", now, None, None)
  }

  /** Attach to the machine's active incident, or open one. Returns the id and whether it is new. */
  function OpenOrAttach(t: Table, alert: AlertRef, now: int, loggedAt: int): (Table, nat, bool) {
    var existing := FindActive(t.incidents, alert.machine, -1);
    if existing.Some? then
      (LogEvent(t, existing.value, AlertAttached(alert), None, loggedAt), existing.value, false)
    else
      var id := |t.incidents|;
      var grown := t.(incidents := t.incidents + [NewIncident(alert, now)]);
      (LogEvent(grown, id, StatusChange(None, Open), None, loggedAt), id, true)
  }

  /** The row after a status update, with its timestamps. */
  function Moved(inc: Incident, to: Status, now: int): Incident {
    inc.(status := to,
         resolvedAt := if to.Resolved? then Some(now) else inc.resolvedAt,
         closedAt := if to.Closed? then Some(now) else inc.closedAt)
  }

  function Transition(t: Table, id: nat, to: Status, actor: Option<string>, now: int, loggedAt: int): (Table, Option<Error>) {
    if id >= |t.incidents| then (t, Some(NotFound))
    else
      var inc := t.incidents[id];
      if !IsValidTransition(inc.status, to) then (t, Some(InvalidTransition(inc.status, to)))
      else if Active(to) && FindActive(t.incidents, inc.alert.machine, id).Some? then (t, Some(ActiveIncidentExists))
      else
        var moved := t.(incidents := t.incidents[id := Moved(inc, to, now)]);
        (LogEvent(moved, id, StatusChange(Some(inc.status), to), actor, loggedAt), None)
  }

  /** Assigning to a missing incident updates no row and then violates the event's foreign key. */
  function Assign(t: Table, id: nat, user: string, actor: Option<string>, loggedAt: int): (Table, Option<Error>) {
    if id >= |t.incidents| then (t, Some(NotFound))
    else
      var edited := t.(incidents := t.incidents[id := t.incidents[id].(assignedTo := user)]);
      (LogEvent(edited, id, Assignment(user), actor, loggedAt), None)
  }

  function WriteNotes(t: Table, id: nat, notes: string): Table {
    if id >= |t.incidents| then t
    else t.(incidents := t.incidents[id := t.incidents[id].(notes := notes)])
  }

  /** The notes are written first, in their own statement. */
  function Resolve(t: Table, id: nat, notes: string, actor: Option<string>, now: int, loggedAt: int): (Table, Option<Error>) {
    Transition(WriteNotes(t, id, notes), id, Resolved, actor, now, loggedAt)
  }

  class Store {
    var incidents: seq<Incident>
    var events: seq<Event>

    function View(): Table
      reads this
    {
      Table(incidents, events)
    }

    constructor ()
      ensures View() == EMPTY
    {
      incidents, events := [], [];
    }

    method AppendEvent(id: nat, change: Change, actor: Option<string>, loggedAt: int)
      modifies this`events
      ensures View() == LogEvent(old(View()), id, change, actor, loggedAt)
    {
      events := events + [Event(id, change, actor, loggedAt)];
    }

    method OpenOrAttachAlert(alert: AlertRef, now: int, loggedAt: int) returns (id: nat, created: bool)
      modifies this
      ensures (View(), id, created) == OpenOrAttach(old(View()), alert, now, loggedAt)
    {
      var existing := FindActive(incidents, alert.machine, -1);
      if existing.Some? {
        AppendEvent(existing.value, AlertAttached(alert), None, loggedAt);
        return existing.value, false;
      }
      id := |incidents|;
      incidents := incidents + [NewIncident(alert, now)];
      AppendEvent(id, StatusChange(None, Open), None, loggedAt);
      return id, true;
    }

    method MoveTo(id: nat, to: Status, actor: Option<string>, now: int, loggedAt: int) returns (error: Option<Error>)
      modifies this
      ensures (View(), error) == Transition(old(View()), id, to, actor, now, loggedAt)
    {
      if id >= |incidents| {
        return Some(NotFound);
      }
      var current := incidents[id];
      if !IsValidTransition(current.status, to) {
        return Some(InvalidTransition(current.status, to));
      }
      if Active(to) && FindActive(incidents, current.alert.machine, id).Some? {
        return Some(ActiveIncidentExists);
      }
      incidents := incidents[id := Moved(current, to, now)];
      AppendEvent(id, StatusChange(Some(current.status), to), actor, loggedAt);
      return None;
    }

    method AssignTo(id: nat, user: string, actor: Option<string>, loggedAt: int) returns (error: Option<Error>)
      modifies this
      ensures (View(), error) == Assign(old(View()), id, user, actor, loggedAt)
    {
      if id >= |incidents| {
        return Some(NotFound);
      }
      incidents := incidents[id := incidents[id].(assignedTo := user)];
      AppendEvent(id, Assignment(user), actor, loggedAt);
      return None;
    }

    method ResolveWithNotes(id: nat, notes: string, actor: Option<string>, now: int, loggedAt: int) returns (error: Option<Error>)
      modifies this
      ensures (View(), error) == Resolve(old(View()), id, notes, actor, now, loggedAt)
    {
      if id < |incidents| {
        incidents := incidents[id := incidents[id].(notes := notes)];
      }
      error := MoveTo(id, Resolved, actor, now, loggedAt);
    }
  }

  // ---- The audit trail -------------------------------------------------------

  datatype Entry = Entry(before: Option<Status>, after: Status, at: int)

  /** The status changes logged for one incident, oldest first. */
  function Trail(events: seq<Event>, id: nat): seq<Entry> {
    if events == [] then []
    else
      var n, e := |events| - 1, events[|events|-1];
      Trail(events[..n], id)
        + if e.incident == id && e.change.StatusChange? then [Entry(e.change.before, e.change.after, e.at)] else []
  }

  /** The user named by the incident's last assignment. */
  function Assignee(events: seq<Event>, id: nat): string {
    if events == [] then ""
    else
      var e := events[|events|-1];
      if e.incident == id && e.change.Assignment? then e.change.user else Assignee(events[..|events|-1], id)
  }

  function CountAttached(events: seq<Event>): nat {
    if events == [] then 0
    else CountAttached(events[..|events|-1]) + if events[|events|-1].change.AlertAttached? then 1 else 0
  }

  /** Where the trail last reached a status. */
  function LastReached(trail: seq<Entry>, s: Status): (last: Option<nat>)
    ensures last.Some? ==> last.value < |trail| && trail[last.value].after == s
    ensures forall k :: 0 <= k < |trail| && trail[k].after == s ==> last.Some? && k <= last.value
  {
    if trail == [] then None
    else if trail[|trail|-1].after == s then Some(|trail| - 1)
    else LastReached(trail[..|trail|-1], s)
  }

  /** The trail starts at OPEN, and each entry continues the one before it by an allowed move. */
  ghost predicate Chains(trail: seq<Entry>) {
    && trail != [] && trail[0].before == None && trail[0].after == Open
    && forall k :: 0 < k < |trail| ==>
         trail[k].before == Some(trail[k-1].after) && IsValidTransition(trail[k-1].after, trail[k].after)
  }

  /** The row's time is set exactly if the trail reaches the status, and is no later than the last such entry. */
  ghost predicate StampedBy(trail: seq<Entry>, s: Status, time: Option<int>) {
    match LastReached(trail, s)
    case None => time.None?
    case Some(k) => time.Some? && time.value <= trail[k].at
  }

  /** The row's status follows from its trail, and so do its three times up to the lag of its events. */
  ghost predicate Replays(trail: seq<Entry>, inc: Incident) {
    && Chains(trail)
    && inc.status == trail[|trail|-1].after
    && inc.openedAt <= trail[0].at
    && StampedBy(trail, Resolved, inc.resolvedAt)
    && StampedBy(trail, Closed, inc.closedAt)
  }

  ghost predicate OneActive(incidents: seq<Incident>) {
    forall i, j :: 0 <= i < j < |incidents| && Active(incidents[i].status) && Active(incidents[j].status)
      ==> incidents[i].alert.machine != incidents[j].alert.machine
  }

  ghost predicate Audited(t: Table, opens: nat) {
    && OneActive(t.incidents)
    && (forall id :: 0 <= id < |t.incidents| ==> Replays(Trail(t.events, id), t.incidents[id]))
    && (forall id :: 0 <= id < |t.incidents| ==> t.incidents[id].assignedTo == Assignee(t.events, id))
    && (forall k :: 0 <= k < |t.events| ==> t.events[k].incident < |t.incidents|)
    && opens == |t.incidents| + CountAttached(t.events)
  }

  datatype Command = OpenFor(alert: AlertRef) | Move(id: nat, to: Status) | AssignUser(id: nat, user: string) | ResolveWith(id: nat, notes: string)

  /** Each event is logged some time after its row is written. */
  datatype Request = Request(command: Command, actor: Option<string>, now: int, lag: nat)
  {
    function LoggedAt(): int {
      now + lag
    }
  }

  function Apply(t: Table, r: Request): Table {
    match r.command
    case OpenFor(alert) => OpenOrAttach(t, alert, r.now, r.LoggedAt()).0
    case Move(id, to) => Transition(t, id, to, r.actor, r.now, r.LoggedAt()).0
    case AssignUser(id, user) => Assign(t, id, user, r.actor, r.LoggedAt()).0
    case ResolveWith(id, notes) => Resolve(t, id, notes, r.actor, r.now, r.LoggedAt()).0
  }

  function Run(rs: seq<Request>): Table {
    if rs == [] then EMPTY else Apply(Run(rs[..|rs|-1]), rs[|rs|-1])
  }

  function Opens(rs: seq<Request>): nat {
    if rs == [] then 0 else Opens(rs[..|rs|-1]) + if rs[|rs|-1].command.OpenFor? then 1 else 0
  }

  lemma TrailAppend(events: seq<Event>, e: Event, id: nat)
    ensures Trail(events + [e], id)
         == if e.incident == id && e.change.StatusChange? then Trail(events, id) + [Entry(e.change.before, e.change.after, e.at)]
            else Trail(events, id)
    ensures Assignee(events + [e], id)
         == if e.incident == id && e.change.Assignment? then e.change.user else Assignee(events, id)
    ensures CountAttached(events + [e]) == CountAttached(events) + if e.change.AlertAttached? then 1 else 0
  {
  }

  lemma {:induction false} NoTrail(events: seq<Event>, id: nat)
    requires forall k :: 0 <= k < |events| ==> events[k].incident < id
    ensures Trail(events, id) == [] && Assignee(events, id) == ""
  {
    if events == [] {
    } else {
      NoTrail(events[..|events|-1], id);
    }
  }

  lemma ReplaysMove(trail: seq<Entry>, inc: Incident, to: Status, now: int, loggedAt: int)
    requires Replays(trail, inc) && IsValidTransition(inc.status, to) && now <= loggedAt
    ensures Replays(trail + [Entry(Some(inc.status), to, loggedAt)], Moved(inc, to, now))
  {
    hide LastReached, IsValidTransition;
    ReachedStep(trail, Entry(Some(inc.status), to, loggedAt), Resolved);
    ReachedStep(trail, Entry(Some(inc.status), to, loggedAt), Closed);
  }

  lemma ReachedStep(trail: seq<Entry>, e: Entry, s: Status)
    ensures LastReached(trail + [e], s) == if e.after == s then Some(|trail|) else LastReached(trail, s)
  {
  }

  lemma OpenAudited(t: Table, opens: nat, alert: AlertRef, now: int, loggedAt: int)
    requires Audited(t, opens) && now <= loggedAt
    ensures Audited(OpenOrAttach(t, alert, now, loggedAt).0, opens + 1)
  {
    hide Replays, Trail, CountAttached, Assignee;
    var (t', id, created) := OpenOrAttach(t, alert, now, loggedAt);
    var e := t'.events[|t.events|];
    assert t'.events == t.events + [e];
    forall i | 0 <= i < |t'.incidents|
      ensures Replays(Trail(t'.events, i), t'.incidents[i]) && t'.incidents[i].assignedTo == Assignee(t'.events, i)
    {
      TrailAppend(t.events, e, i);
      if i == |t.incidents| {
        NoTrail(t.events, i);
        FirstEntry(t'.incidents[i], loggedAt);
        assert Trail(t'.events, i) == [Entry(None, Open, loggedAt)];
      }
    }
    TrailAppend(t.events, e, 0);
  }

  lemma FirstEntry(inc: Incident, loggedAt: int)
    requires inc.status.Open? && inc.closedAt.None? && inc.resolvedAt.None? && inc.openedAt <= loggedAt
    ensures Replays([Entry(None, Open, loggedAt)], inc)
  {
  }

  lemma MoveAudited(t: Table, opens: nat, id: nat, to: Status, actor: Option<string>, now: int, loggedAt: int)
    requires Audited(t, opens) && now <= loggedAt
    ensures Audited(Transition(t, id, to, actor, now, loggedAt).0, opens)
  {
    hide Replays, Trail, CountAttached, Assignee;
    var (t', error) := Transition(t, id, to, actor, now, loggedAt);
    if error.None? {
      var e := t'.events[|t.events|];
      assert t'.events == t.events + [e];
      forall i | 0 <= i < |t'.incidents|
        ensures Replays(Trail(t'.events, i), t'.incidents[i]) && t'.incidents[i].assignedTo == Assignee(t'.events, i)
      {
        TrailAppend(t.events, e, i);
        if i == id {
          ReplaysMove(Trail(t.events, i), t.incidents[i], to, now, loggedAt);
        }
      }
      TrailAppend(t.events, e, 0);
    }
  }

  /** The notes are not audited. */
  lemma NotesAudited(t: Table, opens: nat, id: nat, notes: string)
    requires Audited(t, opens)
    ensures Audited(WriteNotes(t, id, notes), opens)
  {
  }

  lemma AssignAudited(t: Table, opens: nat, id: nat, user: string, actor: Option<string>, loggedAt: int)
    requires Audited(t, opens)
    ensures Audited(Assign(t, id, user, actor, loggedAt).0, opens)
  {
    hide Trail, Assignee, CountAttached, Chains, LastReached;
    if id < |t.incidents| {
      var t' := Assign(t, id, user, actor, loggedAt).0;
      var e := Event(id, Assignment(user), actor, loggedAt);
      forall i | 0 <= i < |t.incidents|
        ensures Replays(Trail(t'.events, i), t'.incidents[i]) && t'.incidents[i].assignedTo == Assignee(t'.events, i)
      {
        TrailAppend(t.events, e, i);
        assert Replays(Trail(t.events, i), t.incidents[i]);
      }
      TrailAppend(t.events, e, 0);
    }
  }

  /** After every serial run the audit trail replays every row, no machine has two active incidents,
      and every successful call either opened an incident or left an attachment. */
  lemma {:induction false} RunAudited(rs: seq<Request>)
    ensures Audited(Run(rs), Opens(rs))
  {
    hide Audited;
    if rs == [] {
      EmptyAudited();
    } else {
      var n := |rs| - 1;
      var t, r := Run(rs[..n]), rs[n];
      RunAudited(rs[..n]);
      match r.command
      case OpenFor(alert) => OpenAudited(t, Opens(rs[..n]), alert, r.now, r.LoggedAt());
      case Move(id, to) => MoveAudited(t, Opens(rs), id, to, r.actor, r.now, r.LoggedAt());
      case AssignUser(id, user) => AssignAudited(t, Opens(rs), id, user, r.actor, r.LoggedAt());
      case ResolveWith(id, notes) =>
        NotesAudited(t, Opens(rs), id, notes);
        MoveAudited(WriteNotes(t, id, notes), Opens(rs), id, Resolved, r.actor, r.now, r.LoggedAt());
    }
  }

  lemma EmptyAudited()
    ensures Audited(EMPTY, 0)
  {
  }

  // ---- What one request leaves behind ----------------------------------------

  /** How far a status is on the way from OPEN to CLOSED. */
  function Standing(s: Status): nat {
    match s
    case Open => 0
    case Acknowledged => 1
    case Investigating => 2
    case Resolved => 3
    case Closed => 4
  }

  /** The lifecycle in words: forward up to RESOLVED, from there to CLOSED only, and back only from RESOLVED to INVESTIGATING. */
  lemma ValidIff(from: Status, to: Status)
    ensures IsValidTransition(from, to) <==>
              || (Standing(from) < Standing(to) <= 3)
              || (from.Resolved? && (to.Closed? || to.Investigating?))
  {
  }

  /** The index ranges over exactly the statuses short of RESOLVED. */
  lemma ActiveIff(s: Status)
    ensures Active(s) <==> Standing(s) < Standing(Resolved)
  {
  }

  /** Every row but one is as it was. */
  ghost predicate OnlyRow(t: Table, t': Table, id: nat) {
    |t'.incidents| == |t.incidents| && forall i :: 0 <= i < |t.incidents| && i != id ==> t'.incidents[i] == t.incidents[i]
  }

  /** The new event, if one was logged, names this incident, actor and time. */
  ghost predicate Logs(t: Table, t': Table, id: nat, change: Change, actor: Option<string>, at: int) {
    && |t'.events| == |t.events| + 1 && t'.events[..|t.events|] == t.events
    && var e := t'.events[|t.events|]; e.incident == id && e.change == change && e.actor == actor && e.at == at
  }

  /** A call to open attaches to an active incident of its machine, or opens one from its alert; either way the system
      logs it. */
  lemma OpenLeaves(t: Table, alert: AlertRef, actor: Option<string>, now: int, lag: nat)
    ensures var t' := Apply(t, Request(OpenFor(alert), actor, now, lag));
            if exists i :: 0 <= i < |t.incidents| && ActiveOn(t.incidents[i], alert.machine)
            then t'.incidents == t.incidents
                 && exists i: nat :: i < |t.incidents| && ActiveOn(t.incidents[i], alert.machine)
                      && Logs(t, t', i, AlertAttached(alert), None, now + lag)
            else && |t'.incidents| == |t.incidents| + 1 && t'.incidents[..|t.incidents|] == t.incidents
                 && Logs(t, t', |t.incidents|, StatusChange(None, Open), None, now + lag)
                 && var inc := t'.incidents[|t.incidents|];
                    && inc.alert == alert && inc.status.Open? && inc.openedAt == now && inc.resolvedAt.None? && inc.closedAt.None?
                    && inc.assignedTo == "" && inc.notes == ""
  {
    var found := FindActive(t.incidents, alert.machine, -1);
    hide FindActive;
    var t' := Apply(t, Request(OpenFor(alert), actor, now, lag));
    if found.Some? {
      assert Logs(t, t', found.value, AlertAttached(alert), None, now + lag);
    }
  }

  /** A move that succeeds changes the status and the time of that status, and nothing else of one row, and is logged
      under its actor. */
  lemma MoveLeaves(t: Table, id: nat, to: Status, actor: Option<string>, now: int, lag: nat)
    requires Transition(t, id, to, actor, now, now + lag).1.None?
    ensures var t' := Apply(t, Request(Move(id, to), actor, now, lag));
            && OnlyRow(t, t', id) && id < |t.incidents|
            && Logs(t, t', id, StatusChange(Some(t.incidents[id].status), to), actor, now + lag)
            && var a, b := t.incidents[id], t'.incidents[id];
               && b.status == to && b.(status := a.status, resolvedAt := a.resolvedAt, closedAt := a.closedAt) == a
               && b.resolvedAt == (if to.Resolved? then Some(now) else a.resolvedAt)
               && b.closedAt == (if to.Closed? then Some(now) else a.closedAt)
  {
    hide FindActive, IsValidTransition;
  }

  lemma AssignLeaves(t: Table, id: nat, user: string, actor: Option<string>, now: int, lag: nat)
    requires id < |t.incidents|
    ensures var t' := Apply(t, Request(AssignUser(id, user), actor, now, lag));
            && OnlyRow(t, t', id) && Logs(t, t', id, Assignment(user), actor, now + lag)
            && t'.incidents[id].assignedTo == user
            && t'.incidents[id].(assignedTo := t.incidents[id].assignedTo) == t.incidents[id]
  {
  }

  /** A resolve writes its notes whether or not the move is allowed, and is logged only if it is. */
  lemma ResolveLeaves(t: Table, id: nat, notes: string, actor: Option<string>, now: int, lag: nat)
    requires id < |t.incidents|
    ensures var t' := Apply(t, Request(ResolveWith(id, notes), actor, now, lag));
            && OnlyRow(t, t', id) && t'.incidents[id].notes == notes
            && t'.incidents[id].alert == t.incidents[id].alert && t'.incidents[id].assignedTo == t.incidents[id].assignedTo
            && (if Standing(t.incidents[id].status) < 3
                then t'.incidents[id].status.Resolved? && t'.incidents[id].resolvedAt == Some(now)
                     && Logs(t, t', id, StatusChange(Some(t.incidents[id].status), Resolved), actor, now + lag)
                else t'.incidents[id].(notes := t.incidents[id].notes) == t.incidents[id] && t'.events == t.events)
  {
    hide FindActive, IsValidTransition;
    ValidIff(t.incidents[id].status, Resolved);
  }

  /** The notes of the last resolve request that found the incident. */
  function LastNotes(rs: seq<Request>, id: nat): string {
    if rs == [] then ""
    else
      var n, c := |rs| - 1, rs[|rs|-1].command;
      if c.ResolveWith? && c.id == id && id < |Run(rs[..n]).incidents| then c.notes else LastNotes(rs[..n], id)
  }

  lemma {:induction false} NotesAreLast(rs: seq<Request>, id: nat)
    ensures if id < |Run(rs).incidents| then Run(rs).incidents[id].notes == LastNotes(rs, id) else LastNotes(rs, id) == ""
  {
    hide Apply;
    if rs == [] {
    } else {
      var n := |rs| - 1;
      NotesAreLast(rs[..n], id);
      NotesOfApply(Run(rs[..n]), rs[n], id);
    }
  }

  lemma NotesOfApply(t: Table, r: Request, id: nat)
    ensures var t' := Apply(t, r);
            && |t.incidents| <= |t'.incidents|
            && (id < |t.incidents| ==>
                  t'.incidents[id].notes == if r.command.ResolveWith? && r.command.id == id then r.command.notes
                                            else t.incidents[id].notes)
            && (|t.incidents| <= id < |t'.incidents| ==> t'.incidents[id].notes == "")
  {
    hide FindActive, IsValidTransition;
  }

  // ---- How closely the trail dates the row ------------------------------------

  /** Every statement of a request runs no earlier than the last one of the request before it. */
  ghost predicate ClockMonotone(rs: seq<Request>) {
    forall i :: 0 < i < |rs| ==> rs[i-1].LoggedAt() <= rs[i].now
  }

  ghost predicate InTimeOrder(trail: seq<Entry>, upTo: int) {
    && (forall k :: 0 <= k < |trail| ==> trail[k].at <= upTo)
    && (forall k :: 0 < k < |trail| ==> trail[k-1].at <= trail[k].at)
  }

  /** The row's time lies between the last entry that reaches the status and the entry before that one. */
  ghost predicate BracketedBy(trail: seq<Entry>, s: Status, time: Option<int>) {
    match LastReached(trail, s)
    case None => time.None?
    case Some(k) => k > 0 && time.Some? && trail[k-1].at <= time.value <= trail[k].at
  }

  ghost predicate Dated(trail: seq<Entry>, inc: Incident, upTo: int) {
    InTimeOrder(trail, upTo) && BracketedBy(trail, Resolved, inc.resolvedAt) && BracketedBy(trail, Closed, inc.closedAt)
  }

  ghost predicate AllDated(t: Table, upTo: int) {
    forall id :: 0 <= id < |t.incidents| ==> Dated(Trail(t.events, id), t.incidents[id], upTo)
  }

  lemma DatedMove(trail: seq<Entry>, inc: Incident, to: Status, upTo: int, now: int, loggedAt: int)
    requires Dated(trail, inc, upTo) && trail != [] && upTo <= now <= loggedAt
    ensures Dated(trail + [Entry(Some(inc.status), to, loggedAt)], Moved(inc, to, now), loggedAt)
  {
    hide LastReached;
    var e := Entry(Some(inc.status), to, loggedAt);
    ReachedStep(trail, e, Resolved);
    ReachedStep(trail, e, Closed);
  }

  lemma DatedLater(t: Table, upTo: int, later: int)
    requires AllDated(t, upTo) && upTo <= later
    ensures AllDated(t, later)
  {
    hide LastReached, Trail;
    forall id | 0 <= id < |t.incidents|
      ensures Dated(Trail(t.events, id), t.incidents[id], later)
    {
      assert Dated(Trail(t.events, id), t.incidents[id], upTo);
    }
  }

  /** What a request does to the times of one existing row, and whether it extends that row's trail. */
  lemma RowEffect(t: Table, r: Request, i: nat)
    requires i < |t.incidents|
    ensures var t' := Apply(t, r);
            && |t.incidents| <= |t'.incidents| <= |t.incidents| + 1
            && if t'.events == t.events then SameTimes(t.incidents[i], t'.incidents[i])
               else
                 var e := t'.events[|t'.events|-1];
                 && t'.events == t.events + [e] && e.at == r.LoggedAt()
                 && if e.incident == i && e.change.StatusChange?
                    then e.change.before == Some(t.incidents[i].status)
                         && SameTimes(Moved(t.incidents[i], e.change.after, r.now), t'.incidents[i])
                    else SameTimes(t.incidents[i], t'.incidents[i])
  {
    hide FindActive, IsValidTransition;
  }

  predicate SameTimes(inc: Incident, inc': Incident) {
    inc'.resolvedAt == inc.resolvedAt && inc'.closedAt == inc.closedAt
  }

  lemma ApplyDated(t: Table, opens: nat, r: Request, upTo: int)
    requires Audited(t, opens) && AllDated(t, upTo) && upTo <= r.now
    ensures AllDated(Apply(t, r), r.LoggedAt())
  {
    hide Apply, Trail, LastReached, Dated, CountAttached, Assignee;
    var t' := Apply(t, r);
    DatedLater(t, upTo, r.LoggedAt());
    forall i | 0 <= i < |t'.incidents|
      ensures Dated(Trail(t'.events, i), t'.incidents[i], r.LoggedAt())
    {
      if i < |t.incidents| {
        RowDated(t, r, i, upTo);
      } else {
        NewRowDated(t, opens, r, i);
      }
    }
  }

  lemma RowDated(t: Table, r: Request, i: nat, upTo: int)
    requires i < |t.incidents| && Replays(Trail(t.events, i), t.incidents[i]) && upTo <= r.now
    requires Dated(Trail(t.events, i), t.incidents[i], upTo) && Dated(Trail(t.events, i), t.incidents[i], r.LoggedAt())
    ensures |t.incidents| <= |Apply(t, r).incidents| && Dated(Trail(Apply(t, r).events, i), Apply(t, r).incidents[i], r.LoggedAt())
  {
    hide Apply, Trail, LastReached, InTimeOrder, BracketedBy;
    var t' := Apply(t, r);
    RowEffect(t, r, i);
    if t'.events != t.events {
      var e := t'.events[|t'.events|-1];
      TrailAppend(t.events, e, i);
      if e.incident == i && e.change.StatusChange? {
        DatedMove(Trail(t.events, i), t.incidents[i], e.change.after, upTo, r.now, r.LoggedAt());
      }
    }
  }

  lemma NewRowDated(t: Table, opens: nat, r: Request, i: nat)
    requires Audited(t, opens) && |t.incidents| <= i < |Apply(t, r).incidents|
    ensures Dated(Trail(Apply(t, r).events, i), Apply(t, r).incidents[i], r.LoggedAt())
  {
    hide Trail, LastReached, Dated, CountAttached, Assignee, Replays, FindActive, IsValidTransition;
    var t' := Apply(t, r);
    var e := Event(i, StatusChange(None, Open), None, r.LoggedAt());
    assert t'.events == t.events + [e];
    TrailAppend(t.events, e, i);
    NoTrail(t.events, i);
    assert Trail(t'.events, i) == [Entry(None, Open, r.LoggedAt())];
    DatedFirst(t'.incidents[i], r.LoggedAt());
  }

  lemma DatedFirst(inc: Incident, loggedAt: int)
    requires inc.resolvedAt.None? && inc.closedAt.None?
    ensures Dated([Entry(None, Open, loggedAt)], inc, loggedAt)
  {
  }

  /** With a monotone clock the trail is in time order and dates each row: a resolution or closing time lies
      between the event that logged it and the event before. */
  lemma {:induction false} RunDated(rs: seq<Request>)
    requires rs != [] && ClockMonotone(rs)
    ensures AllDated(Run(rs), rs[|rs|-1].LoggedAt())
  {
    hide Apply, Audited, AllDated;
    var n := |rs| - 1;
    RunAudited(rs[..n]);
    if n == 0 {
      assert AllDated(EMPTY, rs[n].now) by { EmptyDated(rs[n].now); }
      ApplyDated(EMPTY, 0, rs[n], rs[n].now);
    } else {
      RunDated(rs[..n]);
      ApplyDated(Run(rs[..n]), Opens(rs[..n]), rs[n], rs[n-1].LoggedAt());
    }
  }

  lemma EmptyDated(upTo: int)
    ensures AllDated(EMPTY, upTo)
  {
  }

  /** CLOSED ends a trail, and only RESOLVED leads to it. */
  lemma ClosedEndsTrail(trail: seq<Entry>, k: nat)
    requires Chains(trail) && k < |trail| && trail[k].after == Closed
    ensures k == |trail| - 1 && k > 0 && trail[k-1].after == Resolved
  {
    if k < |trail| - 1 {
      NothingFollowsClosed(trail[k+1].after);
    }
  }

  /** The closing time is set exactly on closed incidents, the resolution time exactly on those ever resolved. */
  lemma TimestampsMeanStatus(trail: seq<Entry>, inc: Incident)
    requires Replays(trail, inc)
    ensures inc.closedAt.Some? <==> inc.status.Closed?
    ensures inc.resolvedAt.Some? <==> exists k :: 0 <= k < |trail| && trail[k].after == Resolved
  {
    var last := LastReached(trail, Closed);
    if last.Some? {
      ClosedEndsTrail(trail, last.value);
    }
  }

  lemma NothingFollowsClosed(to: Status)
    ensures !IsValidTransition(Closed, to)
  {
  }

  lemma ApplyKeepsClosed(t: Table, r: Request, id: nat)
    requires id < |t.incidents| && t.incidents[id].status == Closed
    ensures var t' := Apply(t, r);
            && id < |t'.incidents| && t'.incidents[id].status == Closed
            && t'.incidents[id].closedAt == t.incidents[id].closedAt
            && Trail(t'.events, id) == Trail(t.events, id)
  {
    hide FindActive, Trail;
    var t' := Apply(t, r);
    if t'.events != t.events {
      var e := t'.events[|t.events|];
      assert t'.events == t.events + [e];
      TrailAppend(t.events, e, id);
    }
  }

  /** Nothing that follows reopens a closed incident or adds to its trail. */
  lemma {:induction false} ClosedForever(rs: seq<Request>, n: nat, id: nat)
    requires n <= |rs| && id < |Run(rs[..n]).incidents| && Run(rs[..n]).incidents[id].status == Closed
    ensures id < |Run(rs).incidents| && Run(rs).incidents[id].status == Closed
    ensures Trail(Run(rs).events, id) == Trail(Run(rs[..n]).events, id)
    decreases |rs|
  {
    hide Apply, Trail;
    if n == |rs| {
      assert rs[..n] == rs;
    } else {
      var m := |rs| - 1;
      assert rs[..m][..n] == rs[..n];
      ClosedForever(rs[..m], n, id);
      ApplyKeepsClosed(Run(rs[..m]), rs[m], id);
    }
  }

  /** Exactly when a move succeeds. The last condition is the unique index, not the lifecycle table:
      a resolved incident cannot be reopened once its machine has a newer active one. */
  lemma TransitionSucceedsIff(t: Table, id: nat, to: Status, actor: Option<string>, now: int, loggedAt: int)
    ensures Transition(t, id, to, actor, now, loggedAt).1.None?
            <==> && id < |t.incidents| && IsValidTransition(t.incidents[id].status, to)
                 && (Active(to) ==> forall i :: 0 <= i < |t.incidents| && i != id ==>
                                      !ActiveOn(t.incidents[i], t.incidents[id].alert.machine))
    ensures Transition(t, id, to, actor, now, loggedAt).1.Some? ==> Transition(t, id, to, actor, now, loggedAt).0 == t
  {
  }

  /** A recurrence after resolution leaves the resolved incident unable to go back to INVESTIGATING,
      though the lifecycle allows that move: the newer incident holds the machine's place in the index. */
  lemma RecurrenceBlocksReopening(t: Table, id: nat, alert: AlertRef, actor: Option<string>,
                                  now: int, loggedAt: int, later: int, laterLogged: int)
    requires id < |t.incidents| && t.incidents[id].status == Resolved && t.incidents[id].alert.machine == alert.machine
    ensures IsValidTransition(Resolved, Investigating)
    ensures var t' := OpenOrAttach(t, alert, now, loggedAt).0;
            Transition(t', id, Investigating, actor, later, laterLogged) == (t', Some(ActiveIncidentExists))
  {
  }

  /** A refused resolve still leaves its notes, and changes nothing else. */
  lemma RefusedResolve(t: Table, id: nat, notes: string, actor: Option<string>, now: int, loggedAt: int)
    ensures Resolve(t, id, notes, actor, now, loggedAt).1.Some?
            <==> id >= |t.incidents| || t.incidents[id].status in {Resolved, Closed}
    ensures Resolve(t, id, notes, actor, now, loggedAt).1.Some? ==> Resolve(t, id, notes, actor, now, loggedAt).0 == WriteNotes(t, id, notes)
  {
    if id < |t.incidents| {
      assert WriteNotes(t, id, notes).incidents[id].status == t.incidents[id].status;
      assert IsValidTransition(t.incidents[id].status, Resolved) <==> t.incidents[id].status !in {Resolved, Closed};
    }
  }
}
