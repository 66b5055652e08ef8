/**
 The fixed-window rate limiter (services/api/middleware.py).

 Counters live in a store whose keys expire. Times are milliseconds since the
 epoch, read from one clock. A request reads the minute of its key first, and its
 script runs some time after that; requests are listed in the order their scripts run.
 */
module RateLimiter {
  import opened Wrappers

  /** A clock minute, and the lifetime a counter is given. */
  const WINDOW := 60_000
  const EXPIRY := 60_000

  /** A counter belongs to one route bucket, one client address and one clock minute. */
  datatype Key = Key(bucket: string, ip: string, minute: int)

  datatype Counter = Counter(count: nat, expiresAt: int)

  datatype Request = Request(bucket: string, ip: string, now: int, lag: nat, storeUp: bool)
  {
    function Slot(): Key {
      Key(bucket, ip, now / WINDOW)
    }

    function RunsAt(): int {
      now + lag
    }

    predicate Counts(key: Key) {
      storeUp && Slot() == key
    }
  }

  predicate IsLive(store: map<Key, Counter>, key: Key, now: int) {
    key in store && now < store[key].expiresAt
  }

  /** The script: increment, and give a counter that starts at one its expiry. */
  function Increment(store: map<Key, Counter>, key: Key, now: int): map<Key, Counter> {
    var count := if IsLive(store, key, now) then store[key].count + 1 else 1;
    store[key := Counter(count, if count == 1 then now + EXPIRY else store[key].expiresAt)]
  }

  class Limiter {
    var store: map<Key, Counter>

    constructor ()
      ensures store == map[]
    {
      store := map[];
    }

    method RunScript(key: Key, now: int) returns (count: nat)
      modifies this
      ensures store == Increment(old(store), key, now)
      ensures count == store[key].count
    {
      count := if IsLive(store, key, now) then store[key].count + 1 else 1;
      if count == 1 {
        store := store[key := Counter(count, now + EXPIRY)];
      } else {
        store := store[key := store[key].(count := count)];
      }
    }

    /** Whether the request passes. An unreachable store lets it through uncounted. */
    method Admit(r: Request, limit: int) returns (accepted: bool)
      modifies this
      ensures store == After(old(store), r)
      ensures accepted == Accepts(old(store), r, limit)
    {
      if !r.storeUp {
        return true;
      }
      var count := RunScript(r.Slot(), r.RunsAt());
      return count <= limit;
    }
  }

  function After(store: map<Key, Counter>, r: Request): map<Key, Counter> {
    if r.storeUp then Increment(store, r.Slot(), r.RunsAt()) else store
  }

  predicate Accepts(store: map<Key, Counter>, r: Request, limit: int) {
    !r.storeUp || After(store, r)[r.Slot()].count <= limit
  }

  function Run(rs: seq<Request>): map<Key, Counter> {
    if rs == [] then map[] else After(Run(rs[..|rs|-1]), rs[|rs|-1])
  }

  /** Requests counted under a key, and requests let through uncounted. */
  function Counted(rs: seq<Request>, key: Key): nat {
    if rs == [] then 0
    else Counted(rs[..|rs|-1], key) + if rs[|rs|-1].Counts(key) then 1 else 0
  }

  function Uncounted(rs: seq<Request>, key: Key): nat {
    if rs == [] then 0
    else Uncounted(rs[..|rs|-1], key) + if rs[|rs|-1].Slot() == key && !rs[|rs|-1].storeUp then 1 else 0
  }

  function Accepted(rs: seq<Request>, key: Key, limit: int): nat {
    if rs == [] then 0
    else
      var n := |rs| - 1;
      Accepted(rs[..n], key, limit) + if rs[n].Slot() == key && Accepts(Run(rs[..n]), rs[n], limit) then 1 else 0
  }

  /** How often the key's counter was started, at first or after it had expired. */
  function Starts(rs: seq<Request>, key: Key): nat {
    if rs == [] then 0
    else
      var n, r := |rs| - 1, rs[|rs|-1];
      Starts(rs[..n], key) + if r.Counts(key) && !IsLive(Run(rs[..n]), key, r.RunsAt()) then 1 else 0
  }

  // ---- Per key ---------------------------------------------------------------

  lemma MinuteBounds(now: int)
    ensures now / WINDOW * WINDOW <= now < (now / WINDOW + 1) * WINDOW
  {
  }

  /** When the key's first counted script ran. */
  function FirstRun(rs: seq<Request>, key: Key): Option<int> {
    if rs == [] then None
    else
      var first := FirstRun(rs[..|rs|-1], key);
      if first.None? && rs[|rs|-1].Counts(key) then Some(rs[|rs|-1].RunsAt()) else first
  }

  /** Every counted script of the key ran within the lifetime that the first one gave the counter. */
  ghost predicate Punctual(rs: seq<Request>, key: Key) {
    forall i :: 0 <= i < |rs| && rs[i].Counts(key) ==>
      FirstRun(rs, key).Some? && rs[i].RunsAt() < FirstRun(rs, key).value + EXPIRY
  }

  /** What a key's counter holds: never more than was counted, and less once it has been started again. */
  ghost predicate Holds(rs: seq<Request>, key: Key) {
    var store, counted, starts := Run(rs), Counted(rs, key), Starts(rs, key);
    if counted == 0 then key !in store && starts == 0 && FirstRun(rs, key).None?
    else
      && key in store && 1 <= store[key].count && store[key].count + starts <= counted + 1
      && FirstRun(rs, key).Some?
      && (starts == 1 ==> store[key].count == counted && store[key].expiresAt == FirstRun(rs, key).value + EXPIRY)
      && starts >= 1
  }

  lemma {:induction false} CounterHolds(rs: seq<Request>, key: Key)
    ensures Holds(rs, key)
  {
    if rs == [] {
    } else {
      CounterHolds(rs[..|rs|-1], key);
    }
  }

  lemma {:induction false} StartedOnceIff(rs: seq<Request>, key: Key)
    ensures Starts(rs, key) <= 1 <==> Punctual(rs, key)
  {
    hide Run, Holds;
    if rs == [] {
    } else {
      var n := |rs| - 1;
      StartedOnceIff(rs[..n], key);
      PunctualStep(rs, key);
      StartStep(rs, key);
    }
  }

  lemma PunctualStep(rs: seq<Request>, key: Key)
    requires rs != []
    ensures var n, first := |rs| - 1, FirstRun(rs[..|rs|-1], key);
            Punctual(rs, key) <==>
              && Punctual(rs[..n], key)
              && (rs[n].Counts(key) && first.Some? ==> rs[n].RunsAt() < first.value + EXPIRY)
  {
    var n := |rs| - 1;
    if FirstRun(rs[..n], key).None? {
      NoneCounted(rs[..n], key);
    }
    assert forall i :: 0 <= i < n ==> rs[..n][i] == rs[i];
  }

  lemma {:induction false} NoneCounted(rs: seq<Request>, key: Key)
    requires FirstRun(rs, key).None?
    ensures forall i :: 0 <= i < |rs| ==> !rs[i].Counts(key)
  {
    if rs == [] {
    } else {
      NoneCounted(rs[..|rs|-1], key);
    }
  }

  /** While the counter has been started once, the next script starts it again exactly when it comes too late. */
  lemma StartStep(rs: seq<Request>, key: Key)
    requires rs != []
    ensures var n, first := |rs| - 1, FirstRun(rs[..|rs|-1], key);
            Starts(rs, key) <= 1 <==>
              && Starts(rs[..n], key) <= 1
              && (rs[n].Counts(key) && first.Some? ==> rs[n].RunsAt() < first.value + EXPIRY)
  {
    CounterHolds(rs[..|rs|-1], key);
  }

  /** The counter holds the exact number of the key's requests if and only if every script of the key runs within the
      lifetime that the first one gave it. A script that comes later starts the count again. */
  lemma CounterIsExactIff(rs: seq<Request>, key: Key)
    requires Counted(rs, key) > 0
    ensures key in Run(rs)
    ensures Run(rs)[key].count == Counted(rs, key) <==> Punctual(rs, key)
    ensures Run(rs)[key].count <= Counted(rs, key)
  {
    hide Punctual;
    CounterHolds(rs, key);
    StartedOnceIff(rs, key);
  }

  /** Scripts that run inside the minute of their key are always in time. */
  lemma WithinMinuteIsPunctual(rs: seq<Request>, key: Key)
    requires forall i :: 0 <= i < |rs| && rs[i].Counts(key) ==> rs[i].RunsAt() < (key.minute + 1) * WINDOW
    ensures Punctual(rs, key)
  {
    FirstRunAfter(rs, key);
    forall i | 0 <= i < |rs| && rs[i].Counts(key)
      ensures FirstRun(rs, key).Some? && rs[i].RunsAt() < FirstRun(rs, key).value + EXPIRY
    {
      if FirstRun(rs, key).None? {
        NoneCounted(rs, key);
      }
    }
  }

  lemma {:induction false} FirstRunAfter(rs: seq<Request>, key: Key)
    ensures FirstRun(rs, key).Some? ==> FirstRun(rs, key).value >= key.minute * WINDOW
  {
    if rs == [] {
    } else {
      FirstRunAfter(rs[..|rs|-1], key);
      MinuteBounds(rs[|rs|-1].now);
    }
  }

  function Min(a: int, b: int): int {
    if a < b then a else b
  }

  function Max(a: int, b: int): int {
    if a < b then b else a
  }

  /** How the accepted ones stand to the counter and to how often it was started. */
  ghost predicate Bounded(rs: seq<Request>, key: Key, limit: nat) {
    var accepted, counted, starts := Accepted(rs, key, limit) - Uncounted(rs, key), Counted(rs, key), Starts(rs, key);
    && (accepted >= limit || accepted == counted)
    && (counted == 0 ==> accepted == 0)
    && (counted > 0 ==> key in Run(rs) && Min(Run(rs)[key].count, limit) <= accepted
                        && accepted <= (starts - 1) * limit + Min(Run(rs)[key].count, limit))
  }

  lemma {:induction false} AcceptedIsBounded(rs: seq<Request>, key: Key, limit: nat)
    ensures Bounded(rs, key, limit)
  {
    if rs == [] {
    } else {
      var n := |rs| - 1;
      AcceptedIsBounded(rs[..n], key, limit);
      CounterHolds(rs[..n], key);
      if rs[n].Counts(key) {
        OneMoreStart(Starts(rs[..n], key), limit);
      }
    }
  }

  lemma OneMoreStart(starts: int, limit: nat)
    ensures (starts + 1 - 1) * limit == (starts - 1) * limit + limit
  {
  }

  /** Of the requests one client makes to one bucket in one clock minute, at least the first `limit` counted ones
      pass, besides those that found the store down, and at most `limit` for every time the counter was started. */
  lemma AcceptedPerStart(rs: seq<Request>, key: Key, limit: int)
    ensures Min(Max(limit, 0), Counted(rs, key)) + Uncounted(rs, key) <= Accepted(rs, key, limit)
            <= Starts(rs, key) * Max(limit, 0) + Uncounted(rs, key)
  {
    hide Accepted, Uncounted, Counted, Starts, Run;
    var l := Max(limit, 0);
    NegativeLimit(rs, key, limit);
    AcceptedIsBounded(rs, key, l);
    CounterHolds(rs, key);
    StartsFactor(Starts(rs, key), l);
  }

  /** A negative limit rejects as a limit of zero does. */
  lemma {:induction false} NegativeLimit(rs: seq<Request>, key: Key, limit: int)
    ensures Accepted(rs, key, limit) == Accepted(rs, key, Max(limit, 0))
  {
    hide Run;
    if rs == [] {
    } else {
      NegativeLimit(rs[..|rs|-1], key, limit);
    }
  }

  lemma StartsFactor(starts: nat, limit: nat)
    ensures starts * limit >= 0 && (starts > 0 ==> starts * limit == (starts - 1) * limit + limit)
  {
  }

  /** So with punctual scripts exactly the first `limit` counted requests of a minute are accepted. */
  lemma AcceptedPerMinute(rs: seq<Request>, key: Key, limit: int)
    requires Punctual(rs, key)
    ensures Accepted(rs, key, limit) == Min(Max(limit, 0), Counted(rs, key)) + Uncounted(rs, key)
  {
    hide Accepted, Uncounted, Counted, Starts, Run, Punctual;
    NegativeLimit(rs, key, limit);
    AcceptedIsBounded(rs, key, Max(limit, 0));
    StartedOnceIff(rs, key);
    CounterHolds(rs, key);
  }

  /** A run that goes over the limit: the second script runs when the first one's counter has just expired, and both
      requests of one minute pass a limit of one. */
  lemma LateScriptRestartsCount(bucket: string, ip: string)
    ensures var rs := [Request(bucket, ip, 0, 0, true), Request(bucket, ip, WINDOW - 1, 1, true)];
            Accepted(rs, Key(bucket, ip, 0), 1) == 2
  {
    var rs := [Request(bucket, ip, 0, 0, true), Request(bucket, ip, WINDOW - 1, 1, true)];
    assert rs[..1] == [rs[0]] && rs[..1][..0] == [];
    assert Run(rs[..1]) == map[Key(bucket, ip, 0) := Counter(1, EXPIRY)];
    assert Accepted(rs[..1], Key(bucket, ip, 0), 1) == 1;
  }

  // ---- Per interval ----------------------------------------------------------

  /** Accepted requests of one client to one bucket at times in [lo, hi). */
  function AcceptedIn(rs: seq<Request>, bucket: string, ip: string, limit: int, lo: int, hi: int): nat {
    if rs == [] then 0
    else
      var n, r := |rs| - 1, rs[|rs|-1];
      AcceptedIn(rs[..n], bucket, ip, limit, lo, hi)
        + if r.bucket == bucket && r.ip == ip && lo <= r.now < hi && Accepts(Run(rs[..n]), r, limit) then 1 else 0
  }

  lemma {:induction false} IntervalSplits(rs: seq<Request>, bucket: string, ip: string, limit: int, lo: int, mid: int, hi: int)
    requires lo <= mid <= hi
    ensures AcceptedIn(rs, bucket, ip, limit, lo, hi)
         == AcceptedIn(rs, bucket, ip, limit, lo, mid) + AcceptedIn(rs, bucket, ip, limit, mid, hi)
  {
    hide Accepts, Run;
    if rs == [] {
    } else {
      IntervalSplits(rs[..|rs|-1], bucket, ip, limit, lo, mid, hi);
    }
  }

  /** A whole clock minute is the minute of its key. */
  lemma {:induction false} MinuteIsKey(rs: seq<Request>, bucket: string, ip: string, limit: int, minute: int)
    ensures AcceptedIn(rs, bucket, ip, limit, minute * WINDOW, (minute + 1) * WINDOW)
         == Accepted(rs, Key(bucket, ip, minute), limit)
  {
    hide Accepts, Run;
    if rs == [] {
    } else {
      var n := |rs| - 1;
      MinuteIsKey(rs[..n], bucket, ip, limit, minute);
      MinuteOf(rs[n].now, minute);
    }
  }

  lemma MinuteOf(now: int, minute: int)
    ensures minute * WINDOW <= now < (minute + 1) * WINDOW <==> now / WINDOW == minute
  {
  }

  lemma {:induction false} NoneUncounted(rs: seq<Request>, key: Key)
    requires forall i :: 0 <= i < |rs| ==> rs[i].storeUp
    ensures Uncounted(rs, key) == 0
  {
    if rs == [] {
    } else {
      NoneUncounted(rs[..|rs|-1], key);
    }
  }

  /** How often the counters of k successive minutes were started. */
  function StartsOver(rs: seq<Request>, bucket: string, ip: string, minute: int, k: nat): nat {
    if k == 0 then 0 else StartsOver(rs, bucket, ip, minute, k - 1) + Starts(rs, Key(bucket, ip, minute + k - 1))
  }

  lemma {:induction false} WholeMinutesBound(rs: seq<Request>, bucket: string, ip: string, limit: nat, minute: int, k: nat)
    requires forall i :: 0 <= i < |rs| ==> rs[i].storeUp
    ensures AcceptedIn(rs, bucket, ip, limit, minute * WINDOW, (minute + k) * WINDOW)
         <= StartsOver(rs, bucket, ip, minute, k) * limit
  {
    hide AcceptedIn, Accepted, Counted, Uncounted, Starts;
    if k == 0 {
      IntervalSplits(rs, bucket, ip, limit, minute * WINDOW, minute * WINDOW, minute * WINDOW);
    } else {
      var key := Key(bucket, ip, minute + k - 1);
      WholeMinutesBound(rs, bucket, ip, limit, minute, k - 1);
      IntervalSplits(rs, bucket, ip, limit, minute * WINDOW, (minute + k - 1) * WINDOW, (minute + k) * WINDOW);
      MinuteIsKey(rs, bucket, ip, limit, minute + k - 1);
      AcceptedPerStart(rs, key, limit);
      NoneUncounted(rs, key);
      AddFactors(StartsOver(rs, bucket, ip, minute, k - 1), Starts(rs, key), limit);
    }
  }

  lemma AddFactors(p: nat, q: nat, limit: nat)
    ensures (p + q) * limit == p * limit + q * limit
  {
  }

  /** Any interval of k minutes, aligned or not, passes at most `limit` requests for every start of the counters of
      the k + 1 minutes it touches. */
  lemma IntervalBound(rs: seq<Request>, bucket: string, ip: string, limit: nat, start: int, k: nat)
    requires forall i :: 0 <= i < |rs| ==> rs[i].storeUp
    ensures AcceptedIn(rs, bucket, ip, limit, start, start + k * WINDOW)
         <= StartsOver(rs, bucket, ip, start / WINDOW, k + 1) * limit
  {
    hide AcceptedIn, StartsOver;
    var first := start / WINDOW;
    MinuteBounds(start);
    var lo, hi := first * WINDOW, (first + (k + 1)) * WINDOW;
    WholeMinutesBound(rs, bucket, ip, limit, first, k + 1);
    IntervalSplits(rs, bucket, ip, limit, lo, start, hi);
    IntervalSplits(rs, bucket, ip, limit, start, start + k * WINDOW, hi);
  }

  lemma {:induction false} PunctualStarts(rs: seq<Request>, bucket: string, ip: string, minute: int, k: nat)
    requires forall m :: Punctual(rs, Key(bucket, ip, m))
    ensures StartsOver(rs, bucket, ip, minute, k) <= k
  {
    hide Punctual, Starts;
    if k == 0 {
    } else {
      PunctualStarts(rs, bucket, ip, minute, k - 1);
      StartedOnceIff(rs, Key(bucket, ip, minute + k - 1));
    }
  }

  /** With punctual scripts that is at most (k + 1) * limit requests. */
  lemma PunctualIntervalBound(rs: seq<Request>, bucket: string, ip: string, limit: nat, start: int, k: nat)
    requires forall i :: 0 <= i < |rs| ==> rs[i].storeUp
    requires forall m :: Punctual(rs, Key(bucket, ip, m))
    ensures AcceptedIn(rs, bucket, ip, limit, start, start + k * WINDOW) <= (k + 1) * limit
  {
    hide AcceptedIn, Punctual, StartsOver;
    IntervalBound(rs, bucket, ip, limit, start, k);
    PunctualStarts(rs, bucket, ip, start / WINDOW, k + 1);
    FactorOrder(StartsOver(rs, bucket, ip, start / WINDOW, k + 1), k + 1, limit);
  }

  lemma FactorOrder(p: nat, q: nat, limit: nat)
    requires p <= q
    ensures p * limit <= q * limit
  {
  }
}
