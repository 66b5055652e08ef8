/**
 Status changes by several callers at once (shared/incidents.py).

 A transition is a select of the status, an update that does not look at the status
 again, and the insert of an audit event. Opening an incident is an insert and its
 event. Any number of callers interleave these statements; a caller that dies is one
 that takes no further step.
 */
module TransitionRace {
  import opened Wrappers
  import opened Incidents

  /** A transition whose select found the move valid and whose update is next. */
  datatype Call = Call(id: nat, before: Status, to: Status)

  /** A change of a row whose event is still to be logged. */
  datatype Unlogged = Unlogged(id: nat, before: Option<Status>, to: Status)

  /** The tables, the transitions between select and update, and the changes between update and event, oldest first. */
  datatype State = State(table: Table, calls: map<nat, Call>, waiting: seq<Unlogged>)

  const START := State(EMPTY, map[], [])

  datatype Step =
    | Insert(alert: AlertRef, now: int)
    | Select(call: nat, id: nat, to: Status)
    | Update(call: nat, now: int)
    | Log(k: nat, actor: Option<string>, now: int)  // the event of the k-th waiting change

  /** The update goes through: the unique index has room for the row's new status. */
  predicate Fits(t: Table, call: Call)
    requires call.id < |t.incidents|
  {
    Active(call.to) ==> FindActive(t.incidents, t.incidents[call.id].alert.machine, call.id).None?
  }

  predicate CanUpdate(s: State, c: nat) {
    c in s.calls && s.calls[c].id < |s.table.incidents| && Fits(s.table, s.calls[c])
  }

  function Without(ws: seq<Unlogged>, k: nat): seq<Unlogged>
    requires k < |ws|
  {
    ws[..k] + ws[k+1..]
  }

  /** One atomic statement. */
  function Next(s: State, step: Step): State {
    match step
    case Insert(alert, now) =>
      if FindActive(s.table.incidents, alert.machine, -1).Some? then s
      else s.(table := s.table.(incidents := s.table.incidents + [NewIncident(alert, now)]),
              waiting := s.waiting + [Unlogged(|s.table.incidents|, None, Open)])
    case Select(c, id, to) =>
      if c !in s.calls && id < |s.table.incidents| && IsValidTransition(s.table.incidents[id].status, to) then
        s.(calls := s.calls[c := Call(id, s.table.incidents[id].status, to)])
      else s
    case Update(c, now) =>
      if !CanUpdate(s, c) then s.(calls := s.calls - {c})
      else
        var call := s.calls[c];
        var moved := s.table.incidents[call.id := Moved(s.table.incidents[call.id], call.to, now)];
        State(s.table.(incidents := moved), s.calls - {c}, s.waiting + [Unlogged(call.id, Some(call.before), call.to)])
    case Log(k, actor, now) =>
      if k >= |s.waiting| then s
      else
        var w := s.waiting[k];
        s.(table := LogEvent(s.table, w.id, StatusChange(w.before, w.to), actor, now), waiting := Without(s.waiting, k))
  }

  function Run(steps: seq<Step>): State {
    if steps == [] then START else Next(Run(steps[..|steps|-1]), steps[|steps|-1])
  }

  /** The state before step k; at k == |steps|, the final state. */
  function Before(steps: seq<Step>, k: nat): State
    requires k <= |steps|
  {
    Run(steps[..k])
  }

  lemma BeforePrefix(steps: seq<Step>, n: nat)
    requires n <= |steps|
    ensures forall k :: 0 <= k <= n ==> Before(steps[..n], k) == Before(steps, k)
  {
    forall k | 0 <= k <= n
      ensures Before(steps[..n], k) == Before(steps, k)
    {
      assert steps[..n][..k] == steps[..k];
    }
  }

  lemma RunNext(steps: seq<Step>, k: nat)
    requires k < |steps|
    ensures Before(steps, 0) == START
    ensures Before(steps, k + 1) == Next(Before(steps, k), steps[k])
    ensures Before(steps, |steps|) == Run(steps)
  {
    assert steps[..k+1][..k] == steps[..k];
    assert steps[..|steps|] == steps;
  }

  /** A transition that nothing interrupts is the serial operation, and so is the opening of an incident. */
  lemma UninterruptedIsSerial(s: State, c: nat, id: nat, to: Status, actor: Option<string>, now: int, loggedAt: int)
    requires c !in s.calls && s.waiting == []
    ensures Next(Next(Next(s, Select(c, id, to)), Update(c, now)), Log(0, actor, loggedAt)).table
         == Transition(s.table, id, to, actor, now, loggedAt).0
  {
    hide FindActive, IsValidTransition, Moved;
  }

  lemma UninterruptedOpenIsSerial(s: State, alert: AlertRef, now: int, loggedAt: int)
    requires s.waiting == [] && FindActive(s.table.incidents, alert.machine, -1).None?
    ensures Next(Next(s, Insert(alert, now)), Log(0, None, loggedAt)).table == OpenOrAttach(s.table, alert, now, loggedAt).0
  {
    hide FindActive;
  }

  // ---- The trail and what is still to be logged ------------------------------

  /** The entries the waiting changes of one incident will leave, in the order of the changes. */
  function Waiting(ws: seq<Unlogged>, id: nat): seq<Entry> {
    if ws == [] then []
    else
      var w := ws[|ws|-1];
      Waiting(ws[..|ws|-1], id) + if w.id == id then [Entry(w.before, w.to, 0)] else []
  }

  /** The incident's trail, followed by its changes that are not logged yet. */
  function Whole(s: State, id: nat): seq<Entry> {
    Trail(s.table.events, id) + Waiting(s.waiting, id)
  }

  /** The trail chains from OPEN by allowed moves and ends at the row's status. */
  ghost predicate Faithful(trail: seq<Entry>, status: Status) {
    Chains(trail) && trail[|trail|-1].after == status
  }

  ghost predicate Sound(s: State) {
    forall id :: 0 <= id < |s.table.incidents| ==> Faithful(Whole(s, id), s.table.incidents[id].status)
  }

  ghost predicate WellFormed(s: State) {
    && (forall k :: 0 <= k < |s.table.events| ==> s.table.events[k].incident < |s.table.incidents|)
    && (forall k :: 0 <= k < |s.waiting| ==> s.waiting[k].id < |s.table.incidents|)
    && (forall c: nat :: c in s.calls ==> s.calls[c].id < |s.table.incidents| && IsValidTransition(s.calls[c].before, s.calls[c].to))
  }

  lemma NextWellFormed(s: State, step: Step)
    requires WellFormed(s)
    ensures WellFormed(Next(s, step))
  {
    hide FindActive, IsValidTransition, Moved;
  }

  /** The update overwrites a status other than the one its select read. */
  predicate Stale(s: State, c: nat) {
    CanUpdate(s, c) && s.table.incidents[s.calls[c].id].status != s.calls[c].before
  }

  /** The event is logged ahead of that of an earlier change to the same incident. */
  predicate Overtakes(s: State, k: nat) {
    k < |s.waiting| && exists j :: 0 <= j < k && s.waiting[j].id == s.waiting[k].id
  }

  predicate Breaks(s: State, step: Step) {
    (step.Update? && Stale(s, step.call)) || (step.Log? && Overtakes(s, step.k))
  }

  // ---- One step --------------------------------------------------------------

  lemma WaitingAppend(ws: seq<Unlogged>, w: Unlogged, id: nat)
    ensures Waiting(ws + [w], id) == Waiting(ws, id) + if w.id == id then [Entry(w.before, w.to, 0)] else []
  {
  }

  lemma {:induction false} WaitingConcat(a: seq<Unlogged>, b: seq<Unlogged>, id: nat)
    ensures Waiting(a + b, id) == Waiting(a, id) + Waiting(b, id)
    decreases |b|
  {
    if b == [] {
      assert a + b == a;
    } else {
      var n := |b| - 1;
      WaitingConcat(a, b[..n], id);
      assert (a + b)[..|a|+n] == a + b[..n];
    }
  }

  lemma {:induction false} NoneWaiting(ws: seq<Unlogged>, id: nat)
    ensures Waiting(ws, id) == [] <==> forall k :: 0 <= k < |ws| ==> ws[k].id != id
  {
    if ws == [] {
    } else {
      NoneWaiting(ws[..|ws|-1], id);
      if ws[|ws|-1].id != id {
        assert Waiting(ws, id) == Waiting(ws[..|ws|-1], id);
      }
    }
  }

  /** Taking one change out of the queue. */
  lemma WaitingWithout(ws: seq<Unlogged>, k: nat, id: nat)
    requires k < |ws|
    ensures var w, ahead, behind := ws[k], Waiting(ws[..k], id), Waiting(ws[k+1..], id);
            && Waiting(ws, id) == ahead + (if w.id == id then [Entry(w.before, w.to, 0)] else []) + behind
            && Waiting(Without(ws, k), id) == ahead + behind
  {
    hide Waiting;
    assert ws == ws[..k] + [ws[k]] + ws[k+1..];
    WaitingConcat(ws[..k] + [ws[k]], ws[k+1..], id);
    WaitingAppend(ws[..k], ws[k], id);
    WaitingConcat(ws[..k], ws[k+1..], id);
  }

  /** A trail that is faithful stays so under one more entry exactly when that entry starts where it ends. */
  lemma ExtendIff(trail: seq<Entry>, status: Status, before: Status, to: Status, at: int)
    requires Faithful(trail, status) && IsValidTransition(before, to)
    ensures Faithful(trail + [Entry(Some(before), to, at)], to) <==> before == status
  {
    hide IsValidTransition;
    var longer := trail + [Entry(Some(before), to, at)];
    assert longer[|trail|] == Entry(Some(before), to, at) && longer[|trail|-1] == trail[|trail|-1];
    if before == status {
      assert forall k :: 0 <= k < |trail| ==> longer[k] == trail[k];
    }
  }

  lemma InsertSound(s: State, step: Step)
    requires Sound(s) && WellFormed(s) && step.Insert?
    ensures Sound(Next(s, step))
  {
    hide FindActive, Trail, Waiting, Chains, IsValidTransition;
    var s' := Next(s, step);
    if s' != s {
      var n := |s.table.incidents|;
      forall id | 0 <= id < |s'.table.incidents|
        ensures Faithful(Whole(s', id), s'.table.incidents[id].status)
      {
        WaitingAppend(s.waiting, Unlogged(n, None, Open), id);
        if id == n {
          NoTrail(s.table.events, n);
          NoneWaiting(s.waiting, n);
          assert Whole(s', id) == [Entry(None, Open, 0)];
          OpeningChains();
        } else {
          assert Whole(s', id) == Whole(s, id);
        }
      }
    }
  }

  lemma OpeningChains()
    ensures Chains([Entry(None, Open, 0)])
  {
  }

  /** When every other incident is faithful, one decides. */
  lemma SoundBut(s: State, one: nat)
    requires one < |s.table.incidents|
    requires forall id: nat :: id < |s.table.incidents| && id != one ==> Faithful(Whole(s, id), s.table.incidents[id].status)
    ensures Sound(s) <==> Faithful(Whole(s, one), s.table.incidents[one].status)
  {
  }

  lemma UpdateSoundIff(s: State, step: Step)
    requires Sound(s) && WellFormed(s) && step.Update?
    ensures Sound(Next(s, step)) <==> !Stale(s, step.call)
  {
    hide FindActive, Trail, Waiting, Faithful, IsValidTransition;
    if CanUpdate(s, step.call) {
      var s', call := Next(s, step), s.calls[step.call];
      forall id: nat | id < |s.table.incidents|
        ensures if id == call.id then Faithful(Whole(s', id), s'.table.incidents[id].status) <==> !Stale(s, step.call)
                else Faithful(Whole(s', id), s'.table.incidents[id].status)
      {
        WaitingAppend(s.waiting, Unlogged(call.id, Some(call.before), call.to), id);
        assert Faithful(Whole(s, id), s.table.incidents[id].status);
        if id == call.id {
          ExtendIff(Whole(s, id), s.table.incidents[id].status, call.before, call.to, 0);
          assert Whole(s', id) == Whole(s, id) + [Entry(Some(call.before), call.to, 0)];
        } else {
          assert Whole(s', id) == Whole(s, id);
        }
      }
      SoundBut(s', call.id);
    }
  }

  /** Two trails with the same moves at possibly different times. */
  ghost predicate SameMoves(t: seq<Entry>, u: seq<Entry>) {
    |t| == |u| && forall k :: 0 <= k < |t| ==> t[k].before == u[k].before && t[k].after == u[k].after
  }

  lemma SameMovesFaithful(t: seq<Entry>, u: seq<Entry>, status: Status)
    requires SameMoves(t, u) && Faithful(t, status)
    ensures Faithful(u, status)
  {
    hide IsValidTransition;
  }

  /** An entry moved to the front of those it should have followed breaks the chain, whatever the entries are. */
  lemma OvertakingBreaks(t: seq<Entry>, ahead: seq<Entry>, e: Entry, behind: seq<Entry>, at: int)
    requires Chains(t + (ahead + [e] + behind)) && ahead != []
    ensures !Chains(t + [e.(at := at)] + (ahead + behind))
  {
    hide IsValidTransition;
    var was, now := t + (ahead + [e] + behind), t + [e.(at := at)] + (ahead + behind);
    var n := |t|;
    assert was[n] == ahead[0] && was[n+|ahead|] == e;
    assert now[n].before == e.before && now[n].after == e.after && now[n+1] == ahead[0];
    assert e.before == Some(was[n+|ahead|-1].after);
    if Chains(now) {
      assert ahead[0].before == Some(e.after);
      if n > 0 {
        assert was[n-1] == t[n-1] == now[n-1];
        assert Some(t[n-1].after) == ahead[0].before && Some(t[n-1].after) == e.before;
        assert IsValidTransition(t[n-1].after, e.after);
        NoSelfMove(e.after);
      } else {
        assert false;
      }
    }
  }

  lemma NoSelfMove(s: Status)
    ensures !IsValidTransition(s, s)
  {
  }

  lemma LogSoundIff(s: State, step: Step)
    requires Sound(s) && WellFormed(s) && step.Log?
    ensures Sound(Next(s, step)) <==> !Overtakes(s, step.k)
  {
    hide Faithful, Whole, Next;
    if step.k < |s.waiting| {
      var s', w := Next(s, step), s.waiting[step.k];
      LogKeepsRows(s, step);
      forall id: nat | id < |s.table.incidents|
        ensures if id == w.id then Faithful(Whole(s', id), s'.table.incidents[id].status) <==> !Overtakes(s, step.k)
                else Faithful(Whole(s', id), s'.table.incidents[id].status)
      {
        assert Faithful(Whole(s, id), s.table.incidents[id].status);
        LogWhole(s, step, id);
        NoneWaiting(s.waiting[..step.k], id);
        if id == w.id {
          LogOne(Trail(s.table.events, id), Waiting(s.waiting[..step.k], id), Entry(w.before, w.to, 0),
                 Waiting(s.waiting[step.k+1..], id), step.now, s.table.incidents[id].status);
        }
      }
      SoundBut(s', w.id);
    } else {
      LogKeepsRows(s, step);
    }
  }

  lemma LogKeepsRows(s: State, step: Step)
    requires step.Log?
    ensures Next(s, step).table.incidents == s.table.incidents && (step.k >= |s.waiting| ==> Next(s, step) == s)
  {
  }

  /** Logging a change moves its entry from its place in the queue to the end of the trail. */
  lemma LogWhole(s: State, step: Step, id: nat)
    requires step.Log? && step.k < |s.waiting|
    ensures var w := s.waiting[step.k];
            var t, ahead, behind := Trail(s.table.events, id), Waiting(s.waiting[..step.k], id), Waiting(s.waiting[step.k+1..], id);
            if id == w.id
            then && Whole(s, id) == t + (ahead + [Entry(w.before, w.to, 0)] + behind)
                 && Whole(Next(s, step), id) == t + [Entry(w.before, w.to, step.now)] + (ahead + behind)
            else Whole(Next(s, step), id) == Whole(s, id)
  {
    hide Trail, Waiting;
    TrailAppend(s.table.events, Next(s, step).table.events[|s.table.events|], id);
    WaitingWithout(s.waiting, step.k, id);
    if id == s.waiting[step.k].id {
      assert Entry(s.waiting[step.k].before, s.waiting[step.k].to, 0).(at := step.now)
          == Entry(s.waiting[step.k].before, s.waiting[step.k].to, step.now);
    }
  }

  lemma LogOne(t: seq<Entry>, ahead: seq<Entry>, e: Entry, behind: seq<Entry>, at: int, status: Status)
    requires Faithful(t + (ahead + [e] + behind), status)
    ensures Faithful(t + [e.(at := at)] + (ahead + behind), status) <==> ahead == []
  {
    hide Chains;
    if ahead == [] {
      SameMovesFaithful(t + (ahead + [e] + behind), t + [e.(at := at)] + (ahead + behind), status);
    } else {
      OvertakingBreaks(t, ahead, e, behind, at);
    }
  }

  lemma NextSoundIff(s: State, step: Step)
    requires Sound(s) && WellFormed(s)
    ensures Sound(Next(s, step)) <==> !Breaks(s, step)
  {
    hide Stale, Overtakes, Faithful, Whole, FindActive;
    match step
    case Insert(_, _) => InsertSound(s, step);
    case Select(_, _, _) => SelectSound(s, step);
    case Update(_, _) => UpdateSoundIff(s, step);
    case Log(_, _, _) => LogSoundIff(s, step);
  }

  lemma SelectSound(s: State, step: Step)
    requires Sound(s) && step.Select?
    ensures Sound(Next(s, step))
  {
    hide Faithful, Trail, Waiting;
  }

  // ---- Whole runs ------------------------------------------------------------

  ghost predicate AlwaysSound(steps: seq<Step>) {
    forall k :: 0 <= k <= |steps| ==> Sound(Before(steps, k))
  }

  ghost predicate NothingBreaks(steps: seq<Step>) {
    forall k :: 0 <= k < |steps| ==> !Breaks(Before(steps, k), steps[k])
  }

  /** Over every interleaving, each incident's trail, completed by the changes still to be logged, chains from OPEN by
      allowed moves and ends at the row's status throughout, if and only if every update finds the status its select
      read and no event is logged ahead of that of an earlier change to its incident. */
  lemma {:induction false} SoundIff(steps: seq<Step>)
    ensures AlwaysSound(steps) <==> NothingBreaks(steps)
    ensures WellFormed(Run(steps))
  {
    hide Next, Sound, WellFormed, Breaks, Run;
    if steps == [] {
      assert Before(steps, 0) == START == Run(steps) by { RunNone(); }
      StartSound();
    } else {
      var n := |steps| - 1;
      SoundIff(steps[..n]);
      BeforePrefix(steps, n);
      RunNext(steps, n);
      var s := Before(steps, n);
      NextWellFormed(s, steps[n]);
      assert AlwaysSound(steps) <==> AlwaysSound(steps[..n]) && Sound(Before(steps, n + 1));
      assert NothingBreaks(steps) <==> NothingBreaks(steps[..n]) && !Breaks(s, steps[n]);
      if NothingBreaks(steps[..n]) {
        assert Sound(Before(steps[..n], n));
        NextSoundIff(s, steps[n]);
      }
    }
  }

  lemma RunNone()
    ensures Run([]) == START
  {
  }

  lemma StartSound()
    ensures Sound(START) && WellFormed(START)
  {
  }

  /** So when nothing is waiting for an incident, its logged trail alone tells its status. */
  lemma QuietTrailIsFaithful(steps: seq<Step>, id: nat)
    requires NothingBreaks(steps) && id < |Run(steps).table.incidents|
    requires forall k :: 0 <= k < |Run(steps).waiting| ==> Run(steps).waiting[k].id != id
    ensures Faithful(Trail(Run(steps).table.events, id), Run(steps).table.incidents[id].status)
  {
    hide Run, Faithful;
    SoundIff(steps);
    assert steps[..|steps|] == steps;
    assert Sound(Before(steps, |steps|));
    NoneWaiting(Run(steps).waiting, id);
    assert Whole(Run(steps), id) == Trail(Run(steps).table.events, id);
  }

  // ---- CLOSED under races ----------------------------------------------------

  /** The incident is CLOSED. */
  predicate IsClosed(s: State, id: nat) {
    id < |s.table.incidents| && s.table.incidents[id].status.Closed?
  }

  /** A step leaves CLOSED exactly if it is a stale update of that incident to another status. */
  lemma LeavesClosedIff(s: State, step: Step, id: nat)
    requires WellFormed(s) && IsClosed(s, id)
    ensures id < |Next(s, step).table.incidents|
    ensures !IsClosed(Next(s, step), id) <==>
              step.Update? && Stale(s, step.call) && s.calls[step.call].id == id && !s.calls[step.call].to.Closed?
  {
    hide FindActive;
  }

  /** While no update is stale, CLOSED is terminal under any interleaving. */
  lemma {:induction false} ClosedForever(steps: seq<Step>, k: nat, id: nat)
    requires k <= |steps| && IsClosed(Before(steps, k), id) && NothingBreaks(steps)
    ensures IsClosed(Run(steps), id)
    decreases |steps|
  {
    hide Next, IsClosed, Breaks, WellFormed, Run;
    if k == |steps| {
      assert steps[..k] == steps;
    } else {
      var n := |steps| - 1;
      BeforePrefix(steps, n);
      RunNext(steps, n);
      ClosedForever(steps[..n], k, id);
      SoundIff(steps[..n]);
      StaleBreaks(Before(steps, n), steps[n]);
      LeavesClosedIff(Before(steps, n), steps[n], id);
    }
  }

  lemma StaleBreaks(s: State, step: Step)
    ensures step.Update? && Stale(s, step.call) ==> Breaks(s, step)
  {
  }

  /** Up to a resolved and fully logged incident. */
  function UpToResolved(alert: AlertRef): seq<Step> {
    [Insert(alert, 0), Log(0, None, 0), Select(1, 0, Resolved), Update(1, 0), Log(0, None, 0)]
  }

  lemma UpToResolvedState(alert: AlertRef)
    ensures var s := Run(UpToResolved(alert));
            && s.table.incidents == [Moved(NewIncident(alert, 0), Resolved, 0)] && s.calls == map[] && s.waiting == []
  {
    hide Run, FindActive;
    NothingActive(alert);
    var p2 := [Insert(alert, 0), Log(0, None, 0)];
    var p4 := p2 + [Select(1, 0, Resolved), Update(1, 0)];
    TwoMore([], Insert(alert, 0), Log(0, None, 0));
    TwoMore(p2, Select(1, 0, Resolved), Update(1, 0));
    OneMore(p4, Log(0, None, 0));
    assert [] + p2 == p2 && p4 + [Log(0, None, 0)] == UpToResolved(alert);
    var open := [NewIncident(alert, 0)];
    var opening := Event(0, StatusChange(None, Open), None, 0);
    assert Run([]) == START by { RunNone(); }
    assert Next(START, Insert(alert, 0)) == State(Table(open, []), map[], [Unlogged(0, None, Open)]);
    assert Run(p2) == State(Table(open, [opening]), map[], []);
    assert Next(Run(p2), Select(1, 0, Resolved)) == State(Table(open, [opening]), map[1 := Call(0, Open, Resolved)], []);
    assert Run(p4) == State(Table([Moved(open[0], Resolved, 0)], [opening]), map[], [Unlogged(0, Some(Open), Resolved)]);
  }

  lemma OneMore(steps: seq<Step>, x: Step)
    ensures Run(steps + [x]) == Next(Run(steps), x)
  {
    hide Next;
  }

  lemma TwoMore(steps: seq<Step>, x: Step, y: Step)
    ensures Run(steps + [x, y]) == Next(Next(Run(steps), x), y)
  {
    hide Next, Run;
    OneMore(steps, x);
    OneMore(steps + [x], y);
    assert steps + [x, y] == steps + [x] + [y];
  }

  lemma NothingActive(alert: AlertRef)
    ensures FindActive([], alert.machine, -1).None?
  {
  }

  /** A run that reopens a closed incident: one caller reads RESOLVED, another closes, and the first one's update
      then puts the incident under investigation, though CLOSED allows no move at all. */
  lemma StaleUpdateReopensClosed(alert: AlertRef)
    ensures var closing := UpToResolved(alert) + [Select(1, 0, Closed), Select(2, 0, Investigating), Update(1, 0)];
            && IsClosed(Run(closing), 0)
            && Run(closing + [Update(2, 0)]).table.incidents[0].status == Investigating
            && !AlwaysSound(closing + [Update(2, 0)])
  {
    hide Run, AlwaysSound;
    var p := UpToResolved(alert);
    var closing := p + [Select(1, 0, Closed), Select(2, 0, Investigating), Update(1, 0)];
    var steps := closing + [Update(2, 0)];
    var n := |closing|;
    UpToResolvedState(alert);
    TwoMore(p, Select(1, 0, Closed), Select(2, 0, Investigating));
    OneMore(p + [Select(1, 0, Closed), Select(2, 0, Investigating)], Update(1, 0));
    assert closing == p + [Select(1, 0, Closed), Select(2, 0, Investigating)] + [Update(1, 0)];
    var resolved := Moved(NewIncident(alert, 0), Resolved, 0);
    RunsClosing(Run(p), resolved);
    RunNext(steps, n);
    assert steps[..n] == closing && steps[n] == Update(2, 0);
    assert Breaks(Before(steps, n), steps[n]);
    SoundIff(steps);
  }

  lemma RunsClosing(s: State, resolved: Incident)
    requires s.table.incidents == [resolved] && resolved.status.Resolved? && s.calls == map[]
    ensures var s3 := Next(Next(Next(s, Select(1, 0, Closed)), Select(2, 0, Investigating)), Update(1, 0));
            && IsClosed(s3, 0) && CanUpdate(s3, 2) && Stale(s3, 2)
            && Next(s3, Update(2, 0)).table.incidents[0].status == Investigating
  {
    var s2 := Next(Next(s, Select(1, 0, Closed)), Select(2, 0, Investigating));
    assert s2.calls == map[1 := Call(0, Resolved, Closed), 2 := Call(0, Resolved, Investigating)];
    var closed := Moved(resolved, Closed, 0);
    assert Next(s2, Update(1, 0)).table.incidents == [closed];
    assert FindActive([closed], closed.alert.machine, 0).None?;
  }
}
