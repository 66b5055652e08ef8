/**
 Retry with backoff and the circuit breaker (shared/reliability.py), wired together
 by protected_write (services/stream-processor/kafka_io.py).

 The breaker's three operations are atomic under its lock, so every concurrent
 use of it is a sequence of them; the invariants are proved over all sequences.
 */
module Reliability {
  import opened Wrappers
  import opened RealArith

  datatype Phase = Closed | Open | HalfOpen

  datatype Breaker = Breaker(phase: Phase, fails: nat, openedAt: real)

  /** The fixed settings of one breaker. */
  datatype Limits = Limits(threshold: int, cooldown: real)

  datatype Op = Allow(now: real) | Success(now: real) | Failure(now: real)

  const START := Breaker(Closed, 0, 0.0)

  predicate Admits(lim: Limits, b: Breaker, now: real) {
    b.phase.Closed? || (b.phase.Open? && now - b.openedAt >= lim.cooldown)
  }

  function Step(lim: Limits, b: Breaker, op: Op): Breaker {
    match op
    case Allow(now) => if b.phase.Open? && Admits(lim, b, now) then b.(phase := HalfOpen) else b
    case Success(_) => b.(phase := Closed, fails := 0)
    case Failure(now) =>
      if b.phase.HalfOpen? then b.(phase := Open, openedAt := now)
      else if b.fails + 1 >= lim.threshold then Breaker(Open, b.fails + 1, now)
      else b.(fails := b.fails + 1)
  }

  class CircuitBreaker {
    var phase: Phase
    var consecutiveFails: nat
    var openedAt: real
    const threshold: int
    const cooldownSeconds: real

    function View(): Breaker
      reads this
    {
      Breaker(phase, consecutiveFails, openedAt)
    }

    function Settings(): Limits {
      Limits(threshold, cooldownSeconds)
    }

    constructor (threshold: int, cooldownSeconds: real)
      ensures View() == START && Settings() == Limits(threshold, cooldownSeconds)
    {
      phase, consecutiveFails, openedAt := Closed, 0, 0.0;
      this.threshold, this.cooldownSeconds := threshold, cooldownSeconds;
    }

    method MayProceed(now: real) returns (ok: bool)
      modifies this
      ensures ok == Admits(Settings(), old(View()), now)
      ensures View() == Step(Settings(), old(View()), Allow(now))
    {
      if phase == Closed {
        return true;
      }
      if phase == HalfOpen {
        return false;
      }
      if now - openedAt >= cooldownSeconds {
        phase := HalfOpen;
        return true;
      }
      return false;
    }

    method RecordSuccess(now: real)
      modifies this
      ensures View() == Step(Settings(), old(View()), Success(now))
    {
      consecutiveFails := 0;
      phase := Closed;
    }

    method RecordFailure(now: real)
      modifies this
      ensures View() == Step(Settings(), old(View()), Failure(now))
    {
      if phase == HalfOpen {
        phase := Open;
        openedAt := now;
        return;
      }
      consecutiveFails := consecutiveFails + 1;
      if consecutiveFails >= threshold {
        phase := Open;
        openedAt := now;
      }
    }
  }

  // ---- Retry -----------------------------------------------------------------

  /** How one attempt ends. */
  datatype Attempt = Done | Transient | Permanent

  /** How the whole call ends. NeverTried is the failed assertion of an empty attempt budget. */
  datatype Outcome = Succeeded | GaveUp | Fatal | NeverTried

  /** Attempts made, sleeps taken between them, and the outcome. */
  datatype Retried = Retried(attempts: nat, sleeps: seq<real>, outcome: Outcome)

  function SumOf(ds: seq<real>): real {
    if ds == [] then 0.0 else SumOf(ds[..|ds|-1]) + ds[|ds|-1]
  }

  function Doublings(k: nat): real {
    if k == 0 then 1.0 else 2.0 * Doublings(k - 1)
  }

  /** The first attempt, counted from one, that settles the call, if any does within the budget. */
  ghost predicate SettlesAt(fn: nat -> Attempt, maxAttempts: int, k: nat) {
    1 <= k <= maxAttempts && fn(k) != Transient && forall i :: 1 <= i < k ==> fn(i) == Transient
  }

  /** All that the caller can see of a retried call. */
  ghost predicate RetrySpec(fn: nat -> Attempt, maxAttempts: int, base: real, r: Retried) {
    && |r.sleeps| == (if r.attempts == 0 then 0 else r.attempts - 1)
    && (forall i :: 0 <= i < |r.sleeps| ==> r.sleeps[i] == Times(base, Doublings(i)))
    && (match r.outcome
        case Succeeded => SettlesAt(fn, maxAttempts, r.attempts) && fn(r.attempts) == Done
        case Fatal => SettlesAt(fn, maxAttempts, r.attempts) && fn(r.attempts) == Permanent
        case GaveUp => r.attempts == maxAttempts >= 1 && forall i :: 1 <= i <= maxAttempts ==> fn(i) == Transient
        case NeverTried => r.attempts == 0 && maxAttempts <= 0)
  }

  method RetryWithBackoff(maxAttempts: int, base: real, fn: nat -> Attempt) returns (r: Retried)
    ensures RetrySpec(fn, maxAttempts, base, r)
  {
    assert Times(base, Doublings(0)) == base;
    hide Times, Doublings;
    var delay := base;
    var sleeps := [];
    var attempt := 1;
    while attempt <= maxAttempts
      invariant attempt >= 1
      invariant maxAttempts >= 1 ==> attempt <= maxAttempts
      invariant maxAttempts < 1 ==> attempt == 1
      invariant |sleeps| == attempt - 1
      invariant delay == Times(base, Doublings(attempt - 1))
      invariant forall i :: 0 <= i < |sleeps| ==> sleeps[i] == Times(base, Doublings(i))
      invariant forall i :: 1 <= i < attempt ==> fn(i) == Transient
    {
      var result := fn(attempt);
      if result == Done {
        return Retried(attempt, sleeps, Succeeded);
      }
      if result == Permanent {
        return Retried(attempt, sleeps, Fatal);
      }
      if attempt == maxAttempts {
        return Retried(attempt, sleeps, GaveUp);
      }
      sleeps := sleeps + [delay];
      DoubledDelay(base, attempt - 1);
      delay := delay * 2.0;
      attempt := attempt + 1;
    }
    return Retried(0, [], NeverTried);
  }

  lemma DoubledDelay(base: real, k: nat)
    ensures Times(base, Doublings(k)) * 2.0 == Times(base, Doublings(k + 1))
  {
    assert Doublings(k + 1) == 2.0 * Doublings(k);
  }

  /** The specification has a single answer. */
  lemma RetryDetermined(fn: nat -> Attempt, maxAttempts: int, base: real, r: Retried, r': Retried)
    requires RetrySpec(fn, maxAttempts, base, r) && RetrySpec(fn, maxAttempts, base, r')
    ensures r == r'
  {
  }

  lemma {:induction false} SleepsSum(base: real, sleeps: seq<real>)
    requires forall i :: 0 <= i < |sleeps| ==> sleeps[i] == Times(base, Doublings(i))
    ensures SumOf(sleeps) == Times(base, Doublings(|sleeps|) - 1.0)
  {
    hide Times;
    var n := |sleeps| - 1;
    if sleeps == [] {
      TimesZero(base, base);
    } else {
      SleepsSum(base, sleeps[..n]);
      SumStep(base, SumOf(sleeps[..n]), Doublings(n), Doublings(n + 1));
    }
  }

  lemma SumStep(base: real, sum: real, d: real, d': real)
    requires sum == Times(base, d - 1.0) && d' == 2.0 * d
    ensures sum + Times(base, d) == Times(base, d' - 1.0)
  {
  }

  /** A call that makes k attempts sleeps base * (2^(k-1) - 1) in total, within its budget of attempts. */
  lemma BackoffTotal(fn: nat -> Attempt, maxAttempts: int, base: real, r: Retried)
    requires RetrySpec(fn, maxAttempts, base, r) && r.attempts >= 1
    ensures SumOf(r.sleeps) == Times(base, Doublings(r.attempts - 1) - 1.0)
    ensures r.attempts <= maxAttempts
  {
    hide Times;
    SleepsSum(base, r.sleeps);
  }

  // ---- The breaker over every interleaving -----------------------------------

  /** The breaker after a sequence of operations, by any number of threads. */
  function Run(lim: Limits, ops: seq<Op>): Breaker {
    if ops == [] then START else Step(lim, Run(lim, ops[..|ops|-1]), ops[|ops|-1])
  }

  ghost predicate ClockMonotone(ops: seq<Op>) {
    forall i, j :: 0 <= i < j < |ops| ==> ops[i].now <= ops[j].now
  }

  /** The breaker is closed exactly while its failure count is below the threshold. */
  lemma {:induction false} ClosedIffBelowThreshold(lim: Limits, ops: seq<Op>)
    requires lim.threshold >= 1
    ensures Run(lim, ops).phase.Closed? <==> Run(lim, ops).fails < lim.threshold
  {
    if ops == [] {
    } else {
      ClosedIffBelowThreshold(lim, ops[..|ops|-1]);
    }
  }

  /** Failures recorded since the last success. */
  function FailsSince(ops: seq<Op>): nat {
    if ops == [] then 0
    else
      var n := |ops| - 1;
      match ops[n]
      case Success(_) => 0
      case Failure(_) => FailsSince(ops[..n]) + 1
      case Allow(_) => FailsSince(ops[..n])
  }

  /** When the last failure was recorded. */
  function LastFailure(ops: seq<Op>): Option<real> {
    if ops == [] then None
    else if ops[|ops|-1].Failure? then Some(ops[|ops|-1].now)
    else LastFailure(ops[..|ops|-1])
  }

  /** The threshold is reached, and the cooldown since the last failure is over. */
  predicate CooledDown(lim: Limits, ops: seq<Op>, now: real) {
    FailsSince(ops) >= lim.threshold && LastFailure(ops).Some? && now - LastFailure(ops).value >= lim.cooldown
  }

  /** Since the last record somebody has asked after the cooldown, and is on trial. */
  predicate OnTrial(lim: Limits, ops: seq<Op>) {
    ops != [] && ops[|ops|-1].Allow?
    && (OnTrial(lim, ops[..|ops|-1]) || CooledDown(lim, ops[..|ops|-1], ops[|ops|-1].now))
  }

  /** What a caller who asks now is told. */
  predicate LetsThrough(lim: Limits, ops: seq<Op>, now: real) {
    FailsSince(ops) < lim.threshold || (!OnTrial(lim, ops) && CooledDown(lim, ops, now))
  }

  /** The breaker told from the history of its operations alone: its phase, since when it is open, and whom it admits. */
  lemma {:induction false} BreakerIsItsHistory(lim: Limits, ops: seq<Op>)
    requires lim.threshold >= 1
    ensures var b := Run(lim, ops);
            && (b.phase.Closed? <==> FailsSince(ops) < lim.threshold)
            && (b.phase.HalfOpen? <==> FailsSince(ops) >= lim.threshold && OnTrial(lim, ops))
            && (b.phase.Open? ==> LastFailure(ops) == Some(b.openedAt))
            && (b.phase.Closed? ==> b.fails == FailsSince(ops))
            && (!b.phase.Closed? ==> b.fails >= lim.threshold && LastFailure(ops).Some?)
            && forall now :: Admits(lim, b, now) <==> LetsThrough(lim, ops, now)
  {
    if ops == [] {
    } else {
      BreakerIsItsHistory(lim, ops[..|ops|-1]);
    }
  }

  /** Allow operation j lets its caller through although the breaker is not closed. */
  ghost predicate TrialAt(lim: Limits, ops: seq<Op>, j: nat)
    requires j < |ops|
  {
    ops[j].Allow? && !Run(lim, ops[..j]).phase.Closed? && Admits(lim, Run(lim, ops[..j]), ops[j].now)
  }

  lemma {:induction false} StaysHalfOpen(lim: Limits, ops: seq<Op>, i: nat, j: nat)
    requires i < j <= |ops| && TrialAt(lim, ops, i)
    requires forall k :: i < k < j ==> ops[k].Allow?
    ensures Run(lim, ops[..j]).phase.HalfOpen?
  {
    assert ops[..j][..j-1] == ops[..j-1];
    if j == i + 1 {
    } else {
      StaysHalfOpen(lim, ops, i, j - 1);
    }
  }

  /** Between two trials some caller has recorded an outcome. */
  lemma OneTrialBetweenRecords(lim: Limits, ops: seq<Op>, i: nat, j: nat)
    requires i < j < |ops| && TrialAt(lim, ops, i) && TrialAt(lim, ops, j)
    ensures exists k :: i < k < j && !ops[k].Allow?
  {
    if forall k :: i < k < j ==> ops[k].Allow? {
      StaysHalfOpen(lim, ops, i, j);
    }
  }

  /** A breaker that is not closed was opened by its last recorded failure, and remembers when. */
  ghost predicate OpenedByLastFailure(b: Breaker, ops: seq<Op>) {
    !b.phase.Closed? ==>
      exists i :: 0 <= i < |ops| && ops[i] == Failure(b.openedAt) && forall k :: i < k < |ops| ==> !ops[k].Failure?
  }

  lemma {:induction false} RunOpenedByLastFailure(lim: Limits, ops: seq<Op>)
    requires lim.threshold >= 1
    ensures OpenedByLastFailure(Run(lim, ops), ops)
  {
    if ops == [] {
    } else {
      var n := |ops| - 1;
      var b, b' := Run(lim, ops[..n]), Run(lim, ops);
      RunOpenedByLastFailure(lim, ops[..n]);
      ClosedIffBelowThreshold(lim, ops[..n]);
      if !b'.phase.Closed? {
        if ops[n].Failure? {
          assert ops[n] == Failure(b'.openedAt);
        } else {
          var i :| 0 <= i < n && ops[..n][i] == Failure(b.openedAt) && forall k :: i < k < n ==> !ops[..n][k].Failure?;
          assert ops[i] == Failure(b'.openedAt);
          forall k | i < k < |ops|
            ensures !ops[k].Failure?
          {
            assert k < n ==> ops[..n][k] == ops[k];
          }
        }
      }
    }
  }

  /** No trial starts within the cooldown of any failure recorded before it. */
  lemma TrialRespectsCooldown(lim: Limits, ops: seq<Op>, j: nat, f: nat)
    requires lim.threshold >= 1 && ClockMonotone(ops)
    requires f < j < |ops| && ops[f].Failure? && TrialAt(lim, ops, j)
    ensures ops[j].now >= ops[f].now + lim.cooldown
  {
    hide Run;
    RunOpenedByLastFailure(lim, ops[..j]);
    var b := Run(lim, ops[..j]);
    assert ops[..j][f] == ops[f];
    var i :| 0 <= i < j && ops[..j][i] == Failure(b.openedAt) && forall k :: i < k < j ==> !ops[..j][k].Failure?;
    assert ops[i] == Failure(b.openedAt);
    assert f == i || ops[f].now <= ops[i].now;
  }

  // ---- protected_write by one caller at a time -------------------------------

  /** One protected write: when it asks, when it reports, and how its retries went. */
  datatype Call = Call(start: real, end: real, retried: Retried)

  function CallStep(lim: Limits, b: Breaker, c: Call): Breaker {
    if !Admits(lim, b, c.start) then b
    else
      var trying := Step(lim, b, Allow(c.start));
      Step(lim, trying, if c.retried.outcome == Succeeded then Success(c.end) else Failure(c.end))
  }

  class KafkaIo {
    const breaker: CircuitBreaker
    const maxRetries: int
    const retryDelay: real

    constructor (breaker: CircuitBreaker, maxRetries: int, retryDelay: real)
      ensures this.breaker == breaker && this.maxRetries == maxRetries && this.retryDelay == retryDelay
    {
      this.breaker, this.maxRetries, this.retryDelay := breaker, maxRetries, retryDelay;
    }

    /** start and end are the clock readings at the gate and at the report. */
    method ProtectedWrite(writeFn: nat -> Attempt, start: real, end: real) returns (r: Option<Retried>)
      modifies breaker
      ensures r.None? <==> !Admits(breaker.Settings(), old(breaker.View()), start)
      ensures r.None? ==> breaker.View() == old(breaker.View())
      ensures r.Some? ==> RetrySpec(writeFn, maxRetries, retryDelay, r.value)
      ensures r.Some? ==> breaker.View() == CallStep(breaker.Settings(), old(breaker.View()), Call(start, end, r.value))
    {
      hide RetrySpec;
      var ok := breaker.MayProceed(start);
      if !ok {
        return None;
      }
      var retried := RetryWithBackoff(maxRetries, retryDelay, writeFn);
      if retried.outcome == Succeeded {
        breaker.RecordSuccess(end);
      } else {
        breaker.RecordFailure(end);
      }
      return Some(retried);
    }
  }

  function RunCalls(lim: Limits, cs: seq<Call>): Breaker {
    if cs == [] then START else CallStep(lim, RunCalls(lim, cs[..|cs|-1]), cs[|cs|-1])
  }

  /** What sequential calls do to the breaker, operation by operation: each asks, and each that is let through records
      its outcome, every outcome but success as a failure. */
  function OpsOf(lim: Limits, cs: seq<Call>): seq<Op> {
    if cs == [] then []
    else
      var n, c := |cs| - 1, cs[|cs|-1];
      var before := OpsOf(lim, cs[..n]);
      before + [Allow(c.start)]
        + if LetsThrough(lim, before, c.start) then [if c.retried.outcome.Succeeded? then Success(c.end) else Failure(c.end)] else []
  }

  lemma {:induction false} CallsAreOperations(lim: Limits, cs: seq<Call>)
    requires lim.threshold >= 1
    ensures RunCalls(lim, cs) == Run(lim, OpsOf(lim, cs))
  {
    hide Step, LetsThrough, Admits;
    if cs == [] {
    } else {
      var n, c := |cs| - 1, cs[|cs|-1];
      var before := OpsOf(lim, cs[..n]);
      CallsAreOperations(lim, cs[..n]);
      BreakerIsItsHistory(lim, before);
      RunAppend(lim, before, Allow(c.start));
      if LetsThrough(lim, before, c.start) {
        RunAppend(lim, before + [Allow(c.start)], if c.retried.outcome.Succeeded? then Success(c.end) else Failure(c.end));
      } else {
        assert OpsOf(lim, cs) == before + [Allow(c.start)];
        RefusedAsk(lim, Run(lim, before), c.start);
      }
    }
  }

  lemma RefusedAsk(lim: Limits, b: Breaker, now: real)
    requires !Admits(lim, b, now)
    ensures Step(lim, b, Allow(now)) == b
  {
  }

  lemma RunAppend(lim: Limits, ops: seq<Op>, op: Op)
    ensures Run(lim, ops + [op]) == Step(lim, Run(lim, ops), op)
  {
  }

  /** A sequential client never finds the breaker waiting on a trial that nobody is making. */
  lemma {:induction false} NeverStuckHalfOpen(lim: Limits, cs: seq<Call>)
    ensures !RunCalls(lim, cs).phase.HalfOpen?
  {
    if cs == [] {
    } else {
      NeverStuckHalfOpen(lim, cs[..|cs|-1]);
    }
  }

  /** For a sequential client an open breaker was opened when one of its calls reported. */
  lemma {:induction false} OpenedByACall(lim: Limits, cs: seq<Call>)
    ensures RunCalls(lim, cs).phase.Open? ==> exists i :: 0 <= i < |cs| && cs[i].end == RunCalls(lim, cs).openedAt
  {
    if cs == [] {
    } else {
      var n := |cs| - 1;
      OpenedByACall(lim, cs[..n]);
      NeverStuckHalfOpen(lim, cs[..n]);
      var b, b' := RunCalls(lim, cs[..n]), RunCalls(lim, cs);
      if b'.phase.Open? && b'.openedAt != cs[n].end {
        var i :| 0 <= i < n && cs[..n][i].end == b.openedAt;
        assert cs[i].end == b'.openedAt;
      }
    }
  }

  /** The way back: once a cooldown has passed since the last report, whatever happened before, the next call
      is let through, and if it succeeds the breaker is closed with a clean count. */
  lemma RecoversAfterCooldown(lim: Limits, cs: seq<Call>, next: Call)
    requires forall i :: 0 <= i < |cs| ==> cs[i].end + lim.cooldown <= next.start
    ensures Admits(lim, RunCalls(lim, cs), next.start)
    ensures next.retried.outcome == Succeeded ==>
              var b := CallStep(lim, RunCalls(lim, cs), next);
              b.phase.Closed? && b.fails == 0
  {
    hide RunCalls;
    NeverStuckHalfOpen(lim, cs);
    OpenedByACall(lim, cs);
  }

  function Admitted(lim: Limits, cs: seq<Call>): nat {
    if cs == [] then 0
    else
      var n := |cs| - 1;
      Admitted(lim, cs[..n]) + if Admits(lim, RunCalls(lim, cs[..n]), cs[n].start) then 1 else 0
  }

  /** Write attempts made by the admitted calls. */
  function Writes(lim: Limits, cs: seq<Call>): nat {
    if cs == [] then 0
    else
      var n := |cs| - 1;
      Writes(lim, cs[..n]) + if Admits(lim, RunCalls(lim, cs[..n]), cs[n].start) then cs[n].retried.attempts else 0
  }

  /** Calls follow one another from time zero on, and every write attempt fails transiently. */
  ghost predicate DeadRun(cs: seq<Call>, maxRetries: int, base: real) {
    && (forall i :: 0 <= i < |cs| ==> 0.0 <= cs[i].start <= cs[i].end)
    && (forall i, j :: 0 <= i < j < |cs| ==> cs[i].end <= cs[j].start)
    && (forall i :: 0 <= i < |cs| ==> RetrySpec(_ => Transient, maxRetries, base, cs[i].retried))
  }

  /** Closed while counting up to the threshold; then each further admission costs one cooldown. */
  ghost predicate Throttled(lim: Limits, b: Breaker, admitted: nat, latest: real) {
    if admitted < lim.threshold then b.phase.Closed? && b.fails == admitted
    else b.phase.Open? && b.fails >= lim.threshold && b.openedAt <= latest
         && b.openedAt >= Times((admitted - lim.threshold) as real, lim.cooldown)
  }

  lemma ThrottleStep(lim: Limits, b: Breaker, admitted: nat, latest: real, c: Call)
    requires lim.threshold >= 1 && lim.cooldown > 0.0 && Throttled(lim, b, admitted, latest)
    requires 0.0 <= latest <= c.start <= c.end && c.retried.outcome != Succeeded
    ensures Throttled(lim, CallStep(lim, b, c), admitted + if Admits(lim, b, c.start) then 1 else 0, c.end)
  {
    if admitted < lim.threshold {
      assert Times(0.0, lim.cooldown) == 0.0;
    } else {
      OneMore((admitted - lim.threshold) as real, lim.cooldown);
    }
  }

  lemma OneMore(k: real, cooldown: real)
    ensures Times(k + 1.0, cooldown) == Times(k, cooldown) + cooldown
  {
  }

  lemma DeadCall(maxRetries: int, base: real, r: Retried)
    requires RetrySpec(_ => Transient, maxRetries, base, r)
    ensures r.outcome != Succeeded && r.attempts == (if maxRetries < 1 then 0 else maxRetries)
  {
  }

  ghost function Latest(cs: seq<Call>): real {
    if cs == [] then 0.0 else cs[|cs|-1].end
  }

  lemma {:induction false} DeadRunThrottled(lim: Limits, cs: seq<Call>, maxRetries: int, base: real)
    requires lim.threshold >= 1 && lim.cooldown > 0.0 && DeadRun(cs, maxRetries, base)
    ensures Throttled(lim, RunCalls(lim, cs), Admitted(lim, cs), Latest(cs))
    ensures Writes(lim, cs) == (if maxRetries < 1 then 0 else maxRetries) * Admitted(lim, cs)
  {
    hide Throttled, RetrySpec, CallStep;
    if cs == [] {
      StartThrottled(lim);
    } else {
      var n := |cs| - 1;
      DeadRunThrottled(lim, cs[..n], maxRetries, base);
      DeadCall(maxRetries, base, cs[n].retried);
      ThrottleStep(lim, RunCalls(lim, cs[..n]), Admitted(lim, cs[..n]), Latest(cs[..n]), cs[n]);
    }
  }

  lemma StartThrottled(lim: Limits)
    requires lim.threshold >= 1
    ensures Throttled(lim, START, 0, 0.0)
  {
  }

  /** Calls let through by the given time. */
  function Budget(lim: Limits, elapsed: real): int
    requires lim.cooldown > 0.0
  {
    lim.threshold + (elapsed / lim.cooldown).Floor
  }

  /** A dead dependency is bothered at most threshold + floor(T / cooldown) times by time T,
      and with at most maxRetries writes each time. */
  lemma LoadBound(lim: Limits, cs: seq<Call>, maxRetries: int, base: real, elapsed: real)
    requires lim.threshold >= 1 && lim.cooldown > 0.0 && DeadRun(cs, maxRetries, base)
    requires forall i :: 0 <= i < |cs| ==> cs[i].start <= elapsed
    requires 0.0 <= elapsed
    ensures Admitted(lim, cs) <= Budget(lim, elapsed)
    ensures Writes(lim, cs) <= (if maxRetries < 1 then 0 else maxRetries) * Budget(lim, elapsed)
  {
    hide RetrySpec, DeadRun, Budget, Times;
    AdmittedBeforeElapsed(lim, cs, maxRetries, base, elapsed);
    WithinBudget(lim, Admitted(lim, cs), elapsed);
    DeadRunThrottled(lim, cs, maxRetries, base);
    WritesScale(if maxRetries < 1 then 0 else maxRetries, Admitted(lim, cs), Budget(lim, elapsed));
  }

  lemma WithinBudget(lim: Limits, admitted: int, elapsed: real)
    requires lim.cooldown > 0.0 && 0.0 <= elapsed
    requires admitted > lim.threshold ==> Times((admitted - lim.threshold) as real, lim.cooldown) <= elapsed
    ensures admitted <= Budget(lim, elapsed)
  {
    var extra := admitted - lim.threshold;
    QuotientOrder(0.0, elapsed, lim.cooldown);
    if extra > 0 {
      QuotientOrder(Times(extra as real, lim.cooldown), elapsed, lim.cooldown);
      Quotient(Times(extra as real, lim.cooldown), extra as real, lim.cooldown);
    }
  }

  lemma WritesScale(k: nat, a: int, b: int)
    requires a <= b
    ensures k * a <= k * b
  {
  }

  /** Every admission beyond the threshold starts a full cooldown after the one before. */
  lemma {:induction false} AdmittedBeforeElapsed(lim: Limits, cs: seq<Call>, maxRetries: int, base: real, elapsed: real)
    requires lim.threshold >= 1 && lim.cooldown > 0.0 && DeadRun(cs, maxRetries, base)
    requires forall i :: 0 <= i < |cs| ==> cs[i].start <= elapsed
    requires 0.0 <= elapsed
    ensures Admitted(lim, cs) > lim.threshold ==> Times((Admitted(lim, cs) - lim.threshold) as real, lim.cooldown) <= elapsed
  {
    hide RetrySpec, Times;
    if cs == [] {
    } else {
      var n := |cs| - 1;
      AdmittedBeforeElapsed(lim, cs[..n], maxRetries, base, elapsed);
      DeadRunThrottled(lim, cs[..n], maxRetries, base);
      if Admitted(lim, cs[..n]) >= lim.threshold {
        OneMore((Admitted(lim, cs[..n]) - lim.threshold) as real, lim.cooldown);
      }
    }
  }
}
