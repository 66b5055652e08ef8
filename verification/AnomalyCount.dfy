/**
 Sliding-window anomaly counting (services/alert-service/anomalycount.py).

 Times may arrive in any order and windows may change from call to call. The
 stored list is characterised against the full history of calls for a key.
 */
module AnomalyCount {

  datatype Call = Call(at: int, window: int)
  {
    function Cutoff(): int {
      at - window
    }
  }

  /** The times at or after the cutoff, in order. */
  function Keep(times: seq<int>, cutoff: int): seq<int> {
    if times == [] then []
    else Keep(times[..|times|-1], cutoff) + if times[|times|-1] >= cutoff then [times[|times|-1]] else []
  }

  function TimesOf(seen: map<string, seq<int>>, key: string): seq<int> {
    if key in seen then seen[key] else []
  }

  class AnomalyCountTracker {
    var seen: map<string, seq<int>>

    constructor ()
      ensures seen == map[]
    {
      seen := map[];
    }

    method Record(key: string, at: int, window: int) returns (count: nat)
      modifies this
      ensures seen == old(seen)[key := Keep(TimesOf(old(seen), key), at - window) + [at]]
      ensures seen == Next(old(seen), Request(key, Call(at, window)))
      ensures count == |seen[key]|
    {
      var stored := TimesOf(seen, key);
      var times := [];
      for i := 0 to |stored|
        invariant times == Keep(stored[..i], at - window)
      {
        assert stored[..i+1][..i] == stored[..i];
        if stored[i] >= at - window {
          times := times + [stored[i]];
        }
      }
      assert stored[..|stored|] == stored;
      times := times + [at];
      seen := seen[key := times];
      return |times|;
    }
  }

  // ---- One key's history -----------------------------------------------------

  /** What is stored for a key after its calls. */
  function Stored(calls: seq<Call>): seq<int> {
    if calls == [] then []
    else Keep(Stored(calls[..|calls|-1]), calls[|calls|-1].Cutoff()) + [calls[|calls|-1].at]
  }

  /** Entry i was never older than the cutoff of a later call. */
  predicate Survives(calls: seq<Call>, i: nat) {
    i < |calls| && forall j :: i < j < |calls| ==> calls[i].at >= calls[j].Cutoff()
  }

  /** The surviving ones of the first m entries, in arrival order. */
  function Survivors(calls: seq<Call>, m: nat): seq<int>
    requires m <= |calls|
  {
    if m == 0 then [] else Survivors(calls, m - 1) + if Survives(calls, m - 1) then [calls[m-1].at] else []
  }

  lemma KeepAppend(times: seq<int>, t: int, cutoff: int)
    ensures Keep(times + [t], cutoff) == if t >= cutoff then Keep(times, cutoff) + [t] else Keep(times, cutoff)
  {
  }

  /** One more call removes exactly the entries older than its cutoff. */
  lemma {:induction false} SurvivorsStep(calls: seq<Call>, m: nat)
    requires calls != [] && m <= |calls| - 1
    ensures Survivors(calls, m) == Keep(Survivors(calls[..|calls|-1], m), calls[|calls|-1].Cutoff())
  {
    hide Survives, Keep;
    if m == 0 {
      assert Keep([], calls[|calls|-1].Cutoff()) == [] by { KeepNone(calls[|calls|-1].Cutoff()); }
    } else {
      var i, n := m - 1, |calls| - 1;
      SurvivorsStep(calls, i);
      SurvivesStep(calls, i);
      var before, after := Survivors(calls[..n], i), Survivors(calls, i);
      if Survives(calls[..n], i) {
        KeepAppend(before, calls[i].at, calls[n].Cutoff());
      }
      assert Survives(calls, i) || Survivors(calls, m) == after;
      assert Survives(calls[..n], i) || Survivors(calls[..n], m) == before;
    }
  }

  lemma KeepNone(cutoff: int)
    ensures Keep([], cutoff) == []
  {
  }

  lemma SurvivesStep(calls: seq<Call>, i: nat)
    requires calls != [] && i < |calls| - 1
    ensures Survives(calls, i) <==> Survives(calls[..|calls|-1], i) && calls[i].at >= calls[|calls|-1].Cutoff()
  {
  }

  /** The stored list is exactly the entries that survived every later cutoff, in arrival order. */
  lemma {:induction false} StoredAreSurvivors(calls: seq<Call>)
    ensures Stored(calls) == Survivors(calls, |calls|)
  {
    if calls == [] {
    } else {
      var n := |calls| - 1;
      StoredAreSurvivors(calls[..n]);
      SurvivorsStep(calls, n);
    }
  }

  // ---- Against the full history ----------------------------------------------

  /** How many of the first m calls lie at or after the last call's cutoff. */
  function InWindow(calls: seq<Call>, m: nat): nat
    requires m <= |calls|
  {
    if m == 0 then 0 else InWindow(calls, m - 1) + if calls[m-1].at >= calls[|calls|-1].Cutoff() then 1 else 0
  }

  /** The count over the full history: the earlier occurrences in the window, and this one. */
  function FullCount(calls: seq<Call>): nat
    requires calls != []
  {
    InWindow(calls, |calls| - 1) + 1
  }

  ghost predicate InWindowSurvive(calls: seq<Call>, m: nat)
    requires m <= |calls|
  {
    forall i :: 0 <= i < m && calls[i].at >= calls[|calls|-1].Cutoff() ==> Survives(calls, i)
  }

  lemma {:induction false} SurvivorsAgainstFull(calls: seq<Call>, m: nat)
    requires m < |calls|
    ensures |Survivors(calls, m)| <= InWindow(calls, m)
    ensures |Survivors(calls, m)| == InWindow(calls, m) <==> InWindowSurvive(calls, m)
  {
    if m == 0 {
    } else {
      SurvivorsAgainstFull(calls, m - 1);
      assert Survives(calls, m - 1) ==> calls[m-1].at >= calls[|calls|-1].Cutoff();
    }
  }

  /** For any windows, negative ones included, the count returned never exceeds the full-history count, and equals it
      exactly when no earlier occurrence inside the window was dropped by a call in between. */
  lemma CountAgainstFullHistory(calls: seq<Call>)
    requires calls != []
    ensures |Stored(calls)| <= FullCount(calls)
    ensures |Stored(calls)| == FullCount(calls) <==> InWindowSurvive(calls, |calls| - 1)
  {
    StoredAreSurvivors(calls);
    SurvivorsAgainstFull(calls, |calls| - 1);
  }

  /** With one window length, the count is exact whenever the call's time is the largest seen for the key. */
  lemma NewestCountIsExact(calls: seq<Call>, window: int)
    requires calls != [] && forall i :: 0 <= i < |calls| ==> calls[i].window == window
    requires forall i :: 0 <= i < |calls| ==> calls[i].at <= calls[|calls|-1].at
    ensures |Stored(calls)| == FullCount(calls)
  {
    CountAgainstFullHistory(calls);
  }

  // ---- Keys do not interfere -------------------------------------------------

  datatype Request = Request(key: string, call: Call)

  function Run(rs: seq<Request>): map<string, seq<int>> {
    if rs == [] then map[]
    else Next(Run(rs[..|rs|-1]), rs[|rs|-1])
  }

  function Next(seen: map<string, seq<int>>, r: Request): map<string, seq<int>> {
    seen[r.key := Keep(TimesOf(seen, r.key), r.call.Cutoff()) + [r.call.at]]
  }

  function CallsOf(rs: seq<Request>, key: string): seq<Call> {
    if rs == [] then []
    else CallsOf(rs[..|rs|-1], key) + if rs[|rs|-1].key == key then [rs[|rs|-1].call] else []
  }

  /** The list stored for a key is that of its own calls, whatever other keys recorded in between. */
  lemma {:induction false} KeysAreIndependent(rs: seq<Request>, key: string)
    ensures TimesOf(Run(rs), key) == Stored(CallsOf(rs, key))
  {
    if rs == [] {
    } else {
      var n := |rs| - 1;
      KeysAreIndependent(rs[..n], key);
      var calls := CallsOf(rs[..n], key);
      if rs[n].key == key {
        assert (calls + [rs[n].call])[..|calls|] == calls;
      } else {
        assert CallsOf(rs, key) == calls;
      }
    }
  }
}
