/**
 open_or_attach under concurrency (shared/incidents.py).

 The method is up to four SQL statements: a select, an insert guarded by the
 partial unique index, a second select after a conflict, and the insert of an audit
 event after a find or an insert. Each statement is atomic; between statements any
 other caller may run, and any incident may change status. A caller that dies is one
 that takes no further step.
 */
module IncidentRace {
  import opened Wrappers
  import opened Incidents

  /** How a call came to its answer. Only Created is reported to the caller as a new incident. */
  datatype How = Created | Attached | Raced

  /** Where one call stands. Failed is the error raised when the second select finds nothing. */
  datatype Progress =
    | Started                      // the first select is next
    | Missed                       // it found nothing: the insert is next
    | Conflicted                   // the index refused the insert: the second select is next
    | Found(id: nat)               // the first select found the incident: the attachment's event is next
    | Opened(id: nat)              // the insert went through: the opening's event is next
    | Done(id: nat, how: How)
    | Failed
  {
    /** The incident the call will return or has returned, once it is decided. */
    function Answer(): Option<nat> {
      if Found? || Opened? || Done? then Some(id) else None
    }
  }

  datatype Call = Call(alert: AlertRef, at: Progress)

  datatype State = State(table: Table, calls: map<nat, Call>)

  datatype Step =
    | Begin(caller: nat, alert: AlertRef)
    | Select(caller: nat)
    | Insert(caller: nat, now: int)
    | Reselect(caller: nat)
    | Log(caller: nat, now: int)
    | SetStatus(id: nat, status: Status, now: int)  // the update of any other operation
    | LogOther(event: Event)                        // and the event of one

  predicate IsActive(t: Table, id: nat, machine: string) {
    id < |t.incidents| && ActiveOn(t.incidents[id], machine)
  }

  predicate Pending(s: State, c: nat, at: Progress) {
    c in s.calls && s.calls[c].at == at
  }

  /** The incident that a call's select finds. */
  function FindFor(s: State, c: nat): (found: Option<nat>)
    requires c in s.calls
    ensures found.Some? ==> IsActive(s.table, found.value, s.calls[c].alert.machine)
    ensures found.None? ==> forall id: nat :: !IsActive(s.table, id, s.calls[c].alert.machine)
  {
    FindActive(s.table.incidents, s.calls[c].alert.machine, -1)
  }

  function Put(s: State, c: nat, at: Progress): State
    requires c in s.calls
  {
    s.(calls := s.calls[c := s.calls[c].(at := at)])
  }

  /** The event opens an incident's trail. */
  predicate IsOpening(e: Event) {
    e.change.StatusChange? && e.change.before.None?
  }

  /** One atomic statement. A statement that is not its caller's next one does nothing, and a status
      change that the unique index rejects leaves the table alone. */
  function Next(s: State, step: Step): State {
    match step
    case Begin(c, alert) => if c in s.calls then s else s.(calls := s.calls[c := Call(alert, Started)])
    case Select(c) =>
      if !Pending(s, c, Started) then s
      else
        var found := FindFor(s, c);
        Put(s, c, if found.Some? then Found(found.value) else Missed)
    case Insert(c, now) =>
      if !Pending(s, c, Missed) then s
      else if FindFor(s, c).Some? then Put(s, c, Conflicted)
      else
        var grown := s.table.(incidents := s.table.incidents + [NewIncident(s.calls[c].alert, now)]);
        Put(s.(table := grown), c, Opened(|s.table.incidents|))
    case Reselect(c) =>
      if !Pending(s, c, Conflicted) then s
      else
        var found := FindFor(s, c);
        Put(s, c, if found.Some? then Done(found.value, Raced) else Failed)
    case Log(c, now) =>
      if c !in s.calls then s
      else (match s.calls[c].at
        case Found(id) => Put(s.(table := LogEvent(s.table, id, AlertAttached(s.calls[c].alert), None, now)), c, Done(id, Attached))
        case Opened(id) => Put(s.(table := LogEvent(s.table, id, StatusChange(None, Open), None, now)), c, Done(id, Created))
        case _ => s)
    case SetStatus(id, status, now) =>
      if id >= |s.table.incidents| then s
      else
        var inc := s.table.incidents[id];
        if Active(status) && !Active(inc.status) && FindActive(s.table.incidents, inc.alert.machine, id).Some? then s
        else s.(table := s.table.(incidents := s.table.incidents[id := Moved(inc, status, now)]))
    case LogOther(e) =>
      if e.change.AlertAttached? || IsOpening(e) then s else s.(table := s.table.(events := s.table.events + [e]))
  }

  function Run(s0: State, steps: seq<Step>): State {
    if steps == [] then s0 else Next(Run(s0, steps[..|steps|-1]), steps[|steps|-1])
  }

  /** The state before step k; at k == |steps|, the final state. */
  function Before(s0: State, steps: seq<Step>, k: nat): State
    requires k <= |steps|
  {
    Run(s0, steps[..k])
  }

  lemma BeforePrefix(s0: State, steps: seq<Step>, n: nat)
    requires n <= |steps|
    ensures forall k :: 0 <= k <= n ==> Before(s0, steps[..n], k) == Before(s0, steps, k)
  {
    forall k | 0 <= k <= n
      ensures Before(s0, steps[..n], k) == Before(s0, steps, k)
    {
      assert steps[..n][..k] == steps[..k];
    }
  }

  /** A call that nothing interrupts is the serial operation. */
  lemma UninterruptedIsSerial(s: State, c: nat, alert: AlertRef, now: int, loggedAt: int)
    requires c !in s.calls
    ensures var (t, id, created) := OpenOrAttach(s.table, alert, now, loggedAt);
            Next(Next(Next(Next(s, Begin(c, alert)), Select(c)), Insert(c, now)), Log(c, loggedAt))
            == State(t, s.calls[c := Call(alert, Done(id, if created then Created else Attached))])
  {
    hide FindActive;
    var s1 := Next(s, Begin(c, alert));
    var s2 := Next(s1, Select(c));
    var s3 := Next(s2, Insert(c, now));
    assert FindFor(s1, c) == FindActive(s.table.incidents, alert.machine, -1) == FindFor(s2, c);
    assert Next(s3, Log(c, loggedAt)).calls == s.calls[c := Next(s3, Log(c, loggedAt)).calls[c]];
  }

  // ---- One active incident a machine -----------------------------------------

  /** Whatever the interleaving, no machine ever has two active incidents. */
  lemma {:induction false} NeverTwoActive(s0: State, steps: seq<Step>)
    requires OneActive(s0.table.incidents)
    ensures OneActive(Run(s0, steps).table.incidents)
  {
    hide Next;
    if steps == [] {
    } else {
      var n := |steps| - 1;
      NeverTwoActive(s0, steps[..n]);
      NextKeepsOneActive(Run(s0, steps[..n]), steps[n]);
    }
  }

  lemma NextKeepsOneActive(s: State, step: Step)
    requires OneActive(s.table.incidents)
    ensures OneActive(Next(s, step).table.incidents)
  {
    hide FindActive;
  }

  // ---- What a call returns ---------------------------------------------------

  /** At step k the call was undecided, and right after it the incident was active on the call's machine. */
  ghost predicate SeenActive(s0: State, steps: seq<Step>, c: nat, id: nat, k: nat)
    requires k < |steps|
  {
    var before, after := Before(s0, steps, k), Before(s0, steps, k + 1);
    c in before.calls && before.calls[c].at.Answer().None? && IsActive(after.table, id, before.calls[c].alert.machine)
  }

  /** A call keeps its alert, and once decided its answer; a finished call never changes again. */
  lemma NextKeepsCall(s: State, step: Step, c: nat)
    requires c in s.calls
    ensures c in Next(s, step).calls && Next(s, step).calls[c].alert == s.calls[c].alert
    ensures s.calls[c].at.Answer().Some? ==> Next(s, step).calls[c].at.Answer() == s.calls[c].at.Answer()
    ensures s.calls[c].at.Done? || s.calls[c].at.Failed? ==> Next(s, step).calls[c] == s.calls[c]
  {
    hide FindFor;
  }

  lemma NextDecides(s: State, step: Step, c: nat)
    requires c in Next(s, step).calls && Next(s, step).calls[c].at.Answer().Some?
    requires c !in s.calls || s.calls[c].at.Answer().None?
    ensures c in s.calls && IsActive(Next(s, step).table, Next(s, step).calls[c].at.Answer().value, s.calls[c].alert.machine)
  {
    hide FindActive;
  }

  /** Every id returned was an active incident of the right machine at some instant inside the call. */
  lemma {:induction false} ReturnedWasActive(s0: State, steps: seq<Step>, c: nat)
    requires c !in s0.calls && c in Run(s0, steps).calls && Run(s0, steps).calls[c].at.Answer().Some?
    ensures exists k :: 0 <= k < |steps| && SeenActive(s0, steps, c, Run(s0, steps).calls[c].at.Answer().value, k)
    decreases |steps|
  {
    hide Next, IsActive;
    var n := |steps| - 1;
    var prior := Run(s0, steps[..n]);
    BeforePrefix(s0, steps, n);
    assert steps[..n+1] == steps;
    if c in prior.calls && prior.calls[c].at.Answer().Some? {
      NextKeepsCall(prior, steps[n], c);
      ReturnedWasActive(s0, steps[..n], c);
      var id := prior.calls[c].at.Answer().value;
      var k :| 0 <= k < n && SeenActive(s0, steps[..n], c, id, k);
      assert SeenActive(s0, steps, c, id, k);
    } else {
      NextDecides(prior, steps[n], c);
      assert SeenActive(s0, steps, c, Run(s0, steps).calls[c].at.Answer().value, n);
    }
  }

  // ---- One creator an incident -----------------------------------------------

  /** The call inserted the incident, and is or will be told so. */
  ghost predicate IsCreator(s: State, c: nat, id: nat) {
    c in s.calls && (s.calls[c].at == Opened(id) || s.calls[c].at == Done(id, Created))
  }

  ghost predicate HasCreator(s: State, id: nat) {
    exists c: nat :: IsCreator(s, c, id)
  }

  /** Incidents from base on are exactly the created ones, each by one call. */
  ghost predicate OneCreator(s: State, base: nat) {
    && base <= |s.table.incidents|
    && (forall id: nat :: base <= id < |s.table.incidents| ==> HasCreator(s, id))
    && (forall c: nat, id: nat :: IsCreator(s, c, id) ==> base <= id < |s.table.incidents|)
    && (forall c: nat, d: nat, id: nat :: IsCreator(s, c, id) && IsCreator(s, d, id) ==> c == d)
  }

  lemma NextCreates(s: State, step: Step)
    ensures |Next(s, step).table.incidents|
         == |s.table.incidents| + if step.Insert? && Pending(s, step.caller, Missed) && FindFor(s, step.caller).None? then 1 else 0
    ensures forall c: nat, id: nat :: IsCreator(Next(s, step), c, id)
              <==> IsCreator(s, c, id) || (|Next(s, step).table.incidents| > |s.table.incidents| && id == |s.table.incidents|
                                           && c == step.caller)
  {
    hide FindFor, FindActive, Moved;
  }

  lemma NextKeepsOneCreator(s: State, step: Step, base: nat)
    requires OneCreator(s, base)
    ensures OneCreator(Next(s, step), base)
  {
    hide Next, IsCreator;
    var s' := Next(s, step);
    NextCreates(s, step);
    forall id: nat | base <= id < |s'.table.incidents|
      ensures HasCreator(s', id)
    {
      if id < |s.table.incidents| {
        assert HasCreator(s, id);
        var c: nat :| IsCreator(s, c, id);
        assert IsCreator(s', c, id);
      } else {
        assert IsCreator(s', step.caller, id);
      }
    }
  }

  /** Every incident opened during the run has exactly one caller that is told it created it. */
  lemma {:induction false} EveryIncidentHasOneCreator(s0: State, steps: seq<Step>)
    requires s0.calls == map[]
    ensures OneCreator(Run(s0, steps), |s0.table.incidents|)
  {
    hide Next, OneCreator;
    if steps == [] {
      NoCreators(s0);
    } else {
      EveryIncidentHasOneCreator(s0, steps[..|steps|-1]);
      NextKeepsOneCreator(Run(s0, steps[..|steps|-1]), steps[|steps|-1], |s0.table.incidents|);
    }
  }

  lemma NoCreators(s0: State)
    requires s0.calls == map[]
    ensures OneCreator(s0, |s0.table.incidents|)
  {
  }

  // ---- Counting answers ------------------------------------------------------

  ghost function Answered(s: State): set<nat> {
    set c | c in s.calls && s.calls[c].at.Done?
  }

  ghost function AnsweredBy(s: State, how: How): set<nat> {
    set c | c in s.calls && s.calls[c].at.Done? && s.calls[c].at.how == how
  }

  /** Calls that have inserted and not yet logged it. */
  ghost function Unlogged(s: State): set<nat> {
    set c | c in s.calls && s.calls[c].at.Opened?
  }

  function CountOpenings(events: seq<Event>): nat {
    if events == [] then 0
    else CountOpenings(events[..|events|-1]) + if IsOpening(events[|events|-1]) then 1 else 0
  }

  /** What the counts of a state are, beside those of the state the run began in. */
  ghost predicate Counted(s0: State, s: State) {
    && CountOpenings(s.table.events) == CountOpenings(s0.table.events) + |AnsweredBy(s, Created)|
    && CountAttached(s.table.events) == CountAttached(s0.table.events) + |AnsweredBy(s, Attached)|
    && |s.table.incidents| == |s0.table.incidents| + |AnsweredBy(s, Created)| + |Unlogged(s)|
  }

  lemma CountAppend(events: seq<Event>, e: Event)
    ensures CountOpenings(events + [e]) == CountOpenings(events) + if IsOpening(e) then 1 else 0
    ensures CountAttached(events + [e]) == CountAttached(events) + if e.change.AlertAttached? then 1 else 0
  {
  }

  lemma PutAnswered(s: State, c: nat, at: Progress, how: How)
    requires c in s.calls && !s.calls[c].at.Done?
    ensures c !in AnsweredBy(s, how)
    ensures AnsweredBy(Put(s, c, at), how) == AnsweredBy(s, how) + if at.Done? && at.how == how then {c} else {}
  {
  }

  lemma PutUnlogged(s: State, c: nat, at: Progress)
    requires c in s.calls
    ensures c in Unlogged(s) <==> s.calls[c].at.Opened?
    ensures Unlogged(Put(s, c, at)) == Unlogged(s) - {c} + if at.Opened? then {c} else {}
  {
  }

  /** A call leaves the sets it was in and joins those of its new progress. */
  lemma PutMoves(s: State, c: nat, at: Progress)
    requires c in s.calls && !s.calls[c].at.Done?
    ensures forall how :: |AnsweredBy(Put(s, c, at), how)| == |AnsweredBy(s, how)| + if at.Done? && at.how == how then 1 else 0
    ensures |Unlogged(Put(s, c, at))| == |Unlogged(s)| + (if at.Opened? then 1 else 0) - (if s.calls[c].at.Opened? then 1 else 0)
  {
    hide AnsweredBy, Unlogged, Put;
    forall how
      ensures |AnsweredBy(Put(s, c, at), how)| == |AnsweredBy(s, how)| + if at.Done? && at.how == how then 1 else 0
    {
      PutAnswered(s, c, at, how);
    }
    PutUnlogged(s, c, at);
  }

  /** A new table changes no call. */
  lemma SameCalls(s: State, t: Table)
    ensures Unlogged(s.(table := t)) == Unlogged(s) && forall how :: AnsweredBy(s.(table := t), how) == AnsweredBy(s, how)
  {
  }

  lemma BeginCounts(s: State, c: nat, alert: AlertRef)
    ensures Unlogged(Next(s, Begin(c, alert))) == Unlogged(s)
    ensures forall how :: AnsweredBy(Next(s, Begin(c, alert)), how) == AnsweredBy(s, how)
  {
  }

  lemma NextKeepsCounted(s0: State, s: State, step: Step)
    requires Counted(s0, s)
    ensures Counted(s0, Next(s, step))
  {
    hide CountOpenings, CountAttached, FindActive, FindFor, AnsweredBy, Unlogged, Moved;
    var s' := Next(s, step);
    SameCalls(s, s'.table);
    if step.Begin? {
      BeginCounts(s, step.caller, step.alert);
    } else if !step.SetStatus? && !step.LogOther? && s' != s {
      PutMoves(s.(table := s'.table), step.caller, s'.calls[step.caller].at);
    }
    if |s'.table.events| > |s.table.events| {
      CountAppend(s.table.events, s'.table.events[|s.table.events|]);
    }
  }

  lemma {:induction false} RunCounted(s0: State, steps: seq<Step>)
    requires s0.calls == map[]
    ensures Counted(s0, Run(s0, steps))
  {
    hide Next, Counted;
    if steps == [] {
      NothingCounted(s0);
    } else {
      RunCounted(s0, steps[..|steps|-1]);
      NextKeepsCounted(s0, Run(s0, steps[..|steps|-1]), steps[|steps|-1]);
    }
  }

  lemma NothingCounted(s0: State)
    requires s0.calls == map[]
    ensures Counted(s0, s0)
  {
    assert Unlogged(s0) == {} && forall how :: AnsweredBy(s0, how) == {};
  }

  lemma AnswersSplit(s: State)
    ensures |Answered(s)| == |AnsweredBy(s, Created)| + |AnsweredBy(s, Attached)| + |AnsweredBy(s, Raced)|
  {
    var created, attached, raced := AnsweredBy(s, Created), AnsweredBy(s, Attached), AnsweredBy(s, Raced);
    assert Answered(s) == created + attached + raced;
    assert |created + attached + raced| == |created + attached| + |raced| by { assert (created + attached) * raced == {}; }
    assert |created + attached| == |created| + |attached| by { assert created * attached == {}; }
  }

  /** Over every interleaving, answered calls and inserts still to be logged are the incidents opened, the
      attachments logged, and the second selects that found a row. Hence the law of serial runs, calls = incidents
      opened + attachments logged, holds if and only if no call was answered by its second select. */
  lemma AnswersCount(s0: State, steps: seq<Step>)
    requires s0.calls == map[]
    ensures var s := Run(s0, steps);
            var incidents := |s.table.incidents| - |s0.table.incidents|;
            var attached := CountAttached(s.table.events) - CountAttached(s0.table.events);
            && |Answered(s)| + |Unlogged(s)| == incidents + attached + |AnsweredBy(s, Raced)|
            && (|Answered(s)| + |Unlogged(s)| == incidents + attached <==> AnsweredBy(s, Raced) == {})
  {
    hide Run, CountAttached, Answered, AnsweredBy, Unlogged;
    RunCounted(s0, steps);
    AnswersSplit(Run(s0, steps));
  }

  // ---- The error path --------------------------------------------------------

  /** Step k is the call's second select, made while no incident of its machine is active. */
  ghost predicate ReselectsNothing(s0: State, steps: seq<Step>, c: nat, k: nat)
    requires k < |steps|
  {
    && steps[k] == Reselect(c) && Pending(Before(s0, steps, k), c, Conflicted)
    && forall id: nat :: !IsActive(Before(s0, steps, k).table, id, Before(s0, steps, k).calls[c].alert.machine)
  }

  lemma NextFailsIff(s: State, step: Step, c: nat)
    ensures Pending(Next(s, step), c, Failed) && !Pending(s, c, Failed)
            <==> step == Reselect(c) && Pending(s, c, Conflicted)
                 && forall id: nat :: !IsActive(s.table, id, s.calls[c].alert.machine)
    ensures Pending(s, c, Failed) ==> Pending(Next(s, step), c, Failed)
  {
    hide FindActive, IsActive;
    NextKeepsFailed(s, step, c);
  }

  lemma NextKeepsFailed(s: State, step: Step, c: nat)
    ensures Pending(s, c, Failed) ==> Pending(Next(s, step), c, Failed)
  {
    if c in s.calls {
      NextKeepsCall(s, step, c);
    }
  }

  /** A call ends in the error if and only if its second select runs while its machine has no active incident. */
  lemma {:induction false} FailureIff(s0: State, steps: seq<Step>, c: nat)
    requires c !in s0.calls
    ensures Pending(Run(s0, steps), c, Failed) <==> exists k :: 0 <= k < |steps| && ReselectsNothing(s0, steps, c, k)
    decreases |steps|
  {
    hide Next, IsActive;
    if steps == [] {
    } else {
      var n := |steps| - 1;
      BeforePrefix(s0, steps, n);
      FailureIff(s0, steps[..n], c);
      NextFailsIff(Run(s0, steps[..n]), steps[n], c);
      assert forall k :: 0 <= k < n ==> (ReselectsNothing(s0, steps[..n], c, k) <==> ReselectsNothing(s0, steps, c, k));
      assert Before(s0, steps, n) == Run(s0, steps[..n]);
      if Pending(Run(s0, steps), c, Failed) && !Pending(Run(s0, steps[..n]), c, Failed) {
        assert ReselectsNothing(s0, steps, c, n);
      }
    }
  }

  /** Step i is the call's insert, refused because of the active incident id. */
  ghost predicate RefusedAt(s0: State, steps: seq<Step>, c: nat, machine: string, id: nat, i: nat)
    requires i < |steps|
  {
    && steps[i].Insert? && steps[i].caller == c
    && IsActive(Before(s0, steps, i).table, id, machine) && Pending(Before(s0, steps, i), c, Missed)
  }

  /** Step k takes the incident out of the active states while the call waits to re-select. */
  ghost predicate DeactivatedAt(s0: State, steps: seq<Step>, c: nat, machine: string, id: nat, k: nat)
    requires k < |steps|
  {
    && steps[k].SetStatus? && steps[k].id == id && !Active(steps[k].status)
    && IsActive(Before(s0, steps, k).table, id, machine) && Pending(Before(s0, steps, k), c, Conflicted)
  }

  ghost predicate Explained(s0: State, steps: seq<Step>, c: nat, machine: string, mayStillBeActive: bool) {
    exists id, i :: 0 <= i < |steps| && RefusedAt(s0, steps, c, machine, id, i)
      && ((mayStillBeActive && IsActive(Run(s0, steps).table, id, machine))
          || exists k :: i < k < |steps| && DeactivatedAt(s0, steps, c, machine, id, k))
  }

  lemma NextConflicts(s: State, step: Step, c: nat)
    requires Pending(Next(s, step), c, Conflicted) && !Pending(s, c, Conflicted)
    ensures step.Insert? && step.caller == c && Pending(s, c, Missed) && Next(s, step).table == s.table
    ensures Next(s, step).calls[c].alert == s.calls[c].alert
    ensures exists id: nat :: IsActive(s.table, id, s.calls[c].alert.machine)
  {
    hide FindActive, IsActive;
  }

  lemma NextDeactivates(s: State, step: Step, id: nat, machine: string)
    requires IsActive(s.table, id, machine) && !IsActive(Next(s, step).table, id, machine)
    ensures step.SetStatus? && step.id == id && !Active(step.status)
  {
    hide FindActive, FindFor;
  }

  lemma ExplainedGrows(s0: State, steps: seq<Step>, c: nat, machine: string)
    requires steps != [] && Explained(s0, steps[..|steps|-1], c, machine, true)
    requires Pending(Run(s0, steps[..|steps|-1]), c, Conflicted)
    ensures Explained(s0, steps, c, machine, true)
    ensures (forall id: nat :: !IsActive(Run(s0, steps).table, id, machine)) ==> Explained(s0, steps, c, machine, false)
  {
    hide Next, IsActive;
    var n := |steps| - 1;
    BeforePrefix(s0, steps, n);
    var prior := Run(s0, steps[..n]);
    assert Before(s0, steps, n) == prior;
    var id, i :| 0 <= i < n && RefusedAt(s0, steps[..n], c, machine, id, i)
      && (IsActive(prior.table, id, machine)
          || exists k :: i < k < n && DeactivatedAt(s0, steps[..n], c, machine, id, k));
    assert RefusedAt(s0, steps, c, machine, id, i);
    if k :| i < k < n && DeactivatedAt(s0, steps[..n], c, machine, id, k) {
      assert DeactivatedAt(s0, steps, c, machine, id, k);
    } else if !IsActive(Run(s0, steps).table, id, machine) {
      NextDeactivates(prior, steps[n], id, machine);
      assert DeactivatedAt(s0, steps, c, machine, id, n);
    }
  }

  lemma {:induction false} ConflictExplained(s0: State, steps: seq<Step>, c: nat)
    requires c !in s0.calls && Pending(Run(s0, steps), c, Conflicted)
    ensures Explained(s0, steps, c, Run(s0, steps).calls[c].alert.machine, true)
    decreases |steps|
  {
    hide Next, IsActive;
    var n := |steps| - 1;
    var prior, machine := Run(s0, steps[..n]), Run(s0, steps).calls[c].alert.machine;
    if Pending(prior, c, Conflicted) {
      NextKeepsCall(prior, steps[n], c);
      ConflictExplained(s0, steps[..n], c);
      ExplainedGrows(s0, steps, c, machine);
    } else {
      NextConflicts(prior, steps[n], c);
      var id: nat :| IsActive(prior.table, id, prior.calls[c].alert.machine);
      assert RefusedAt(s0, steps, c, machine, id, n);
    }
  }

  /** The incident that refused the insert left the active states after the refusal and before the second select. */
  lemma {:induction false} FailureNeedsDeactivation(s0: State, steps: seq<Step>, c: nat)
    requires c !in s0.calls && Pending(Run(s0, steps), c, Failed)
    ensures var m := Run(s0, steps).calls[c].alert.machine;
            exists id, i, k :: 0 <= i < k < |steps| && RefusedAt(s0, steps, c, m, id, i) && DeactivatedAt(s0, steps, c, m, id, k)
    decreases |steps|
  {
    hide Next, IsActive;
    var n := |steps| - 1;
    var prior, m := Run(s0, steps[..n]), Run(s0, steps).calls[c].alert.machine;
    BeforePrefix(s0, steps, n);
    if Pending(prior, c, Failed) {
      NextKeepsCall(prior, steps[n], c);
      FailureNeedsDeactivation(s0, steps[..n], c);
      var id, i, k :| 0 <= i < k < n && RefusedAt(s0, steps[..n], c, m, id, i) && DeactivatedAt(s0, steps[..n], c, m, id, k);
      assert RefusedAt(s0, steps, c, m, id, i) && DeactivatedAt(s0, steps, c, m, id, k);
    } else {
      NextFailsIff(prior, steps[n], c);
      NextKeepsCall(prior, steps[n], c);
      ReselectKeepsTable(prior, c);
      ConflictExplained(s0, steps[..n], c);
      ExplainedGrows(s0, steps, c, m);
      var id, i :| 0 <= i < |steps| && RefusedAt(s0, steps, c, m, id, i)
        && exists k :: i < k < |steps| && DeactivatedAt(s0, steps, c, m, id, k);
    }
  }

  lemma ReselectKeepsTable(s: State, c: nat)
    ensures Next(s, Reselect(c)).table == s.table
  {
  }

  // ---- Two races -------------------------------------------------------------

  /** Two calls for one alert, at the given points. */
  function Two(t: Table, alert: AlertRef, first: Progress, second: Progress): State {
    State(t, map[1 := Call(alert, first), 2 := Call(alert, second)])
  }

  /** Both select before either inserts, and the second insert is refused. */
  function Race(alert: AlertRef): seq<Step> {
    [Begin(1, alert), Begin(2, alert), Select(1), Select(2), Insert(1, 0), Insert(2, 0)]
  }

  lemma RaceState(alert: AlertRef)
    ensures Run(State(EMPTY, map[]), Race(alert)) == Two(Table([NewIncident(alert, 0)], []), alert, Opened(0), Conflicted)
  {
    hide Next, Run;
    var s0, r := State(EMPTY, map[]), Race(alert);
    assert Before(s0, r, 0) == s0 by { RunNone(s0); }
    RunOne(s0, r, 0);
    RunOne(s0, r, 1);
    RunOne(s0, r, 2);
    RunOne(s0, r, 3);
    RunOne(s0, r, 4);
    RunOne(s0, r, 5);
    assert r[..6] == r;
    BothMiss(alert);
    OneInserts(alert);
  }

  lemma RunNone(s0: State)
    ensures Run(s0, []) == s0
  {
  }

  lemma RunOne(s0: State, steps: seq<Step>, k: nat)
    requires k < |steps|
    ensures Before(s0, steps, k + 1) == Next(Before(s0, steps, k), steps[k])
  {
    assert steps[..k+1][..k] == steps[..k];
  }

  lemma BothMiss(alert: AlertRef)
    ensures var s1 := Next(State(EMPTY, map[]), Begin(1, alert));
            Next(Next(Next(s1, Begin(2, alert)), Select(1)), Select(2)) == Two(EMPTY, alert, Missed, Missed)
  {
    var s1 := Next(State(EMPTY, map[]), Begin(1, alert));
    assert s1 == State(EMPTY, map[1 := Call(alert, Started)]);
    assert Next(s1, Begin(2, alert)) == Two(EMPTY, alert, Started, Started);
    assert Next(Two(EMPTY, alert, Started, Started), Select(1)) == Two(EMPTY, alert, Missed, Started);
  }

  lemma OneFound(alert: AlertRef)
    ensures FindActive([], alert.machine, -1).None?
    ensures FindActive([NewIncident(alert, 0)], alert.machine, -1) == Some(0)
  {
  }

  lemma OneInserts(alert: AlertRef)
    ensures Next(Next(Two(EMPTY, alert, Missed, Missed), Insert(1, 0)), Insert(2, 0))
            == Two(Table([NewIncident(alert, 0)], []), alert, Opened(0), Conflicted)
  {
    OneFound(alert);
    hide FindActive;
    assert Next(Two(EMPTY, alert, Missed, Missed), Insert(1, 0)) == Two(Table([NewIncident(alert, 0)], []), alert, Opened(0), Missed);
  }

  lemma RunMore(s0: State, steps: seq<Step>, x: Step, y: Step)
    ensures Run(s0, steps + [x, y]) == Next(Next(Run(s0, steps), x), y)
  {
    assert (steps + [x, y])[..|steps|+1] == steps + [x] && (steps + [x])[..|steps|] == steps;
  }

  /** The loser of a race is answered and logs nothing: two answered calls, one incident, no attachment. */
  lemma LoserLogsNothing(alert: AlertRef)
    ensures var s := Run(State(EMPTY, map[]), Race(alert) + [Log(1, 0), Reselect(2)]);
            && s.calls == map[1 := Call(alert, Done(0, Created)), 2 := Call(alert, Done(0, Raced))]
            && |s.table.incidents| == 1 && |s.table.events| == 1 && IsOpening(s.table.events[0])
  {
    hide Run;
    RaceState(alert);
    RunMore(State(EMPTY, map[]), Race(alert), Log(1, 0), Reselect(2));
    var open := [NewIncident(alert, 0)];
    var logged := LogEvent(Table(open, []), 0, StatusChange(None, Open), None, 0);
    assert Next(Two(Table(open, []), alert, Opened(0), Conflicted), Log(1, 0)) == Two(logged, alert, Done(0, Created), Conflicted);
    assert Next(Two(logged, alert, Done(0, Created), Conflicted), Reselect(2)) == Two(logged, alert, Done(0, Created), Done(0, Raced));
  }

  /** The error path is reachable: two racers, the winner's incident resolved at the wrong moment. */
  lemma FailureReachable(alert: AlertRef)
    ensures Pending(Run(State(EMPTY, map[]), Race(alert) + [SetStatus(0, Resolved, 0), Reselect(2)]), 2, Failed)
  {
    hide Run;
    RaceState(alert);
    RunMore(State(EMPTY, map[]), Race(alert), SetStatus(0, Resolved, 0), Reselect(2));
    var open, resolved := [NewIncident(alert, 0)], [Moved(NewIncident(alert, 0), Resolved, 0)];
    assert Next(Two(Table(open, []), alert, Opened(0), Conflicted), SetStatus(0, Resolved, 0))
        == Two(Table(resolved, []), alert, Opened(0), Conflicted);
    assert FindActive(resolved, alert.machine, -1).None?;
  }
}
