/**
 Rolling statistics of one (device, metric) series (services/stream-processor/window.py).

 Times are whole microseconds, as in the source's timestamps. The buffer is
 specified by the samples it holds per instant, in arrival order: that pins a
 time-ordered buffer down completely, and does not mention how it was built.
 */
module Window {
  import opened Wrappers
  import opened Moments
  import opened RealArith

  const MICROSECONDS_PER_SECOND := 1_000_000

  datatype Sample = Sample(at: int, value: real)

  // ---- Specification vocabulary ----------------------------------------------

  ghost predicate Ordered(s: seq<Sample>) {
    forall i, j :: 0 <= i < j < |s| ==> s[i].at <= s[j].at
  }

  /** The samples taken exactly at t, in sequence order. */
  function AtTime(s: seq<Sample>, t: int): seq<Sample> {
    if s == [] then []
    else AtTime(s[..|s|-1], t) + if s[|s|-1].at == t then [s[|s|-1]] else []
  }

  /** The samples at or after the cutoff, in sequence order. */
  function Since(s: seq<Sample>, cutoff: int): seq<Sample> {
    if s == [] then []
    else Since(s[..|s|-1], cutoff) + if s[|s|-1].at >= cutoff then [s[|s|-1]] else []
  }

  function Newest(s: seq<Sample>): int
    requires s != []
  {
    var n := |s| - 1;
    if n == 0 then s[0].at
    else
      var t := Newest(s[..n]);
      if s[n].at > t then s[n].at else t
  }

  /** s is the stable sort by event time of the history h. */
  ghost predicate IsStableSort(h: seq<Sample>, s: seq<Sample>) {
    Ordered(s) && forall t :: AtTime(s, t) == AtTime(h, t)
  }

  // ---- The buffer ------------------------------------------------------------

  /** Puts x behind every sample that is not later than it. */
  function Insert(s: seq<Sample>, x: Sample): seq<Sample> {
    if s == [] || s[|s|-1].at <= x.at then s + [x]
    else Insert(s[..|s|-1], x) + [s[|s|-1]]
  }

  /** One arrival: insert in time order, then keep what is within maxWindow of the newest. */
  function Arrive(s: seq<Sample>, maxWindow: int, x: Sample): seq<Sample> {
    var grown := Insert(s, x);
    InsertLast(s, x);
    Since(grown, grown[|grown|-1].at - maxWindow)
  }

  /** The buffer after a history of arrivals. */
  function Buffer(h: seq<Sample>, maxWindow: int): seq<Sample> {
    if h == [] then [] else Arrive(Buffer(h[..|h|-1], maxWindow), maxWindow, h[|h|-1])
  }

  /** Insertion sort of a history, with nothing trimmed. */
  function SortByTime(h: seq<Sample>): seq<Sample> {
    if h == [] then [] else Insert(SortByTime(h[..|h|-1]), h[|h|-1])
  }

  lemma InsertLast(s: seq<Sample>, x: Sample)
    ensures var grown := Insert(s, x);
            grown != [] && grown[|grown|-1] == if s == [] || s[|s|-1].at <= x.at then x else s[|s|-1]
  {
  }

  class SeriesBuffer {
    var samples: seq<Sample>
    const maxWindow: int

    constructor (maxWindow: int)
      ensures samples == [] && this.maxWindow == maxWindow
    {
      samples := [];
      this.maxWindow := maxWindow;
    }

    method Add(at: int, value: real)
      requires Ordered(samples)
      modifies this
      ensures Ordered(samples)
      ensures samples == Arrive(old(samples), maxWindow, Sample(at, value))
    {
      hide Insert, Since, Ordered, Arrive;
      var x := Sample(at, value);
      var i := InsertionPoint(x);
      InsertOrdered(samples, x);
      ArriveTrims(samples, maxWindow, x);
      samples := samples[..i] + [x] + samples[i..];
      TrimBefore(samples[|samples|-1].at - maxWindow);
    }

    /** Walks back from the end past the samples later than x. */
    method InsertionPoint(x: Sample) returns (i: nat)
      ensures i <= |samples| && Insert(samples, x) == samples[..i] + [x] + samples[i..]
    {
      hide Insert;
      i := |samples|;
      assert samples[..i] == samples && samples[i..] == [];
      while i > 0 && samples[i-1].at > x.at
        invariant i <= |samples|
        invariant Insert(samples, x) == Insert(samples[..i], x) + samples[i..]
      {
        InsertSkips(samples, x, i);
        i := i - 1;
      }
      InsertLands(samples, x, i);
    }

    /** Drops the leading samples older than the cutoff. */
    method TrimBefore(cutoff: int)
      requires Ordered(samples)
      modifies this
      ensures Ordered(samples) && samples == Since(old(samples), cutoff)
    {
      hide Since, Ordered;
      var j := 0;
      while j < |samples| && samples[j].at < cutoff
        invariant 0 <= j <= |samples|
        invariant forall k :: 0 <= k < j ==> samples[k].at < cutoff
      {
        j := j + 1;
      }
      SinceOfOrdered(samples, cutoff, j);
      SinceOrdered(samples, cutoff);
      if j > 0 {
        samples := samples[j..];
      }
    }

    /** Statistics over the trailing window, or None when no sample falls in it. */
    function StatsFor(sqrt: real -> real, now: int, window: int): Option<WindowStats>
      reads this
    {
      StatsSince(sqrt, samples, now - window)
    }
  }

  // ---- Window statistics -----------------------------------------------------

  datatype WindowStats = WindowStats(count: nat, movingAvg: real, movingStddev: real,
                                     min: real, max: real, rateOfChange: real)

  function Values(s: seq<Sample>): (vs: seq<real>)
    ensures |vs| == |s| && forall i :: 0 <= i < |s| ==> vs[i] == s[i].value
  {
    seq(|s|, i requires 0 <= i < |s| => s[i].value)
  }

  function SquaredDeviations(vs: seq<real>, c: real): real {
    if vs == [] then 0.0 else SquaredDeviations(vs[..|vs|-1], c) + Square(vs[|vs|-1] - c)
  }

  function Seconds(t: int): real {
    t as real / MICROSECONDS_PER_SECOND as real
  }

  function ComputeStats(sqrt: real -> real, s: seq<Sample>): WindowStats
    requires s != []
  {
    var n, vs := |s|, Values(s);
    var avg := Sum(vs) / n as real;
    var variance := SquaredDeviations(vs, avg) / n as real;
    WindowStats(n, avg, sqrt(variance), MinOf(vs), MaxOf(vs), RateOfChange(s))
  }

  function RateOfChange(s: seq<Sample>): real
    requires s != []
  {
    var n := |s| - 1;
    var elapsed := Seconds(s[n].at - s[0].at);
    if n > 0 && elapsed > 0.0 then (s[n].value - s[0].value) / elapsed else 0.0
  }

  function StatsSince(sqrt: real -> real, s: seq<Sample>, cutoff: int): Option<WindowStats> {
    var inWindow := Since(s, cutoff);
    if inWindow == [] then None else Some(ComputeStats(sqrt, inWindow))
  }

  // ---- Ordering lemmas -------------------------------------------------------

  lemma {:induction false} InsertOrdered(s: seq<Sample>, x: Sample)
    requires Ordered(s)
    ensures Ordered(Insert(s, x))
  {
    var n := |s| - 1;
    if s == [] || s[n].at <= x.at {
    } else {
      InsertOrdered(s[..n], x);
      InsertLast(s[..n], x);
      var rest := Insert(s[..n], x);
      assert rest[|rest|-1].at <= s[n].at;
    }
  }

  lemma {:induction false} SinceOrdered(s: seq<Sample>, cutoff: int)
    requires Ordered(s)
    ensures var kept := Since(s, cutoff);
            Ordered(kept) && (kept != [] ==> kept[|kept|-1].at <= s[|s|-1].at)
  {
    hide Ordered;
    if s == [] {
      assert Since(s, cutoff) == s;
    } else {
      var n := |s| - 1;
      OrderedPrefix(s);
      SinceOrdered(s[..n], cutoff);
      SinceStep(s, cutoff);
      if s[n].at >= cutoff {
        OrderedAppend(Since(s[..n], cutoff), s[n]);
      } else {
        assert Since(s, cutoff) == Since(s[..n], cutoff);
      }
    }
  }

  lemma OrderedPrefix(s: seq<Sample>)
    requires s != [] && Ordered(s)
    ensures Ordered(s[..|s|-1]) && (|s| > 1 ==> s[|s|-2].at <= s[|s|-1].at)
  {
  }

  lemma SinceStep(s: seq<Sample>, cutoff: int)
    requires s != []
    ensures Since(s, cutoff) == Since(s[..|s|-1], cutoff) + if s[|s|-1].at >= cutoff then [s[|s|-1]] else []
  {
  }

  lemma OrderedAppend(s: seq<Sample>, x: Sample)
    requires Ordered(s) && (s != [] ==> s[|s|-1].at <= x.at)
    ensures Ordered(s + [x])
  {
  }

  lemma ArriveTrims(s: seq<Sample>, maxWindow: int, x: Sample)
    ensures var grown := Insert(s, x);
            grown != [] && Arrive(s, maxWindow, x) == Since(grown, grown[|grown|-1].at - maxWindow)
  {
  }

  /** The insertion walk moves left past a later sample. */
  lemma InsertSkips(s: seq<Sample>, x: Sample, i: nat)
    requires 0 < i <= |s| && s[i-1].at > x.at
    ensures Insert(s[..i], x) + s[i..] == Insert(s[..i-1], x) + s[i-1..]
  {
    assert s[..i][..i-1] == s[..i-1];
    assert s[i-1..] == [s[i-1]] + s[i..];
  }

  /** The insertion walk stops behind a sample that is not later. */
  lemma InsertLands(s: seq<Sample>, x: Sample, i: nat)
    requires i <= |s| && (i > 0 ==> s[i-1].at <= x.at)
    ensures Insert(s[..i], x) + s[i..] == s[..i] + [x] + s[i..]
  {
  }

  /** A time-ordered sequence loses exactly a prefix to a cutoff. */
  lemma {:induction false} SinceOfOrdered(s: seq<Sample>, cutoff: int, j: nat)
    requires Ordered(s) && j <= |s|
    requires forall k :: 0 <= k < j ==> s[k].at < cutoff
    requires j < |s| ==> s[j].at >= cutoff
    ensures Since(s, cutoff) == s[j..]
  {
    var n := |s| - 1;
    if s == [] {
    } else if j == |s| {
      SinceOfOrdered(s[..n], cutoff, n);
    } else {
      SinceOfOrdered(s[..n], cutoff, j);
      assert s[j..] == s[..n][j..] + [s[n]];
    }
  }

  // ---- Samples per instant ---------------------------------------------------

  lemma {:induction false} AtTimeAppend(a: seq<Sample>, b: seq<Sample>, t: int)
    ensures AtTime(a + b, t) == AtTime(a, t) + AtTime(b, t)
  {
    if b == [] {
      assert a + b == a;
    } else {
      var n := |b| - 1;
      AtTimeAppend(a, b[..n], t);
      assert (a + b)[..|a| + n] == a + b[..n];
    }
  }

  lemma {:induction false} AtTimeEmpty(s: seq<Sample>, t: int)
    requires forall i :: 0 <= i < |s| ==> s[i].at != t
    ensures AtTime(s, t) == []
  {
    if s == [] {
    } else {
      AtTimeEmpty(s[..|s|-1], t);
    }
  }

  /** Inserting is stable: x joins its own instant last and no other instant changes. */
  lemma {:induction false} InsertAtTime(s: seq<Sample>, x: Sample, t: int)
    requires Ordered(s)
    ensures AtTime(Insert(s, x), t) == AtTime(s, t) + if x.at == t then [x] else []
  {
    var n := |s| - 1;
    if s == [] || s[n].at <= x.at {
      assert (s + [x])[..|s|] == s;
    } else {
      InsertAtTime(s[..n], x, t);
      var grown := Insert(s[..n], x) + [s[n]];
      assert grown[..|grown|-1] == Insert(s[..n], x);
    }
  }

  lemma {:induction false} SinceAtTime(s: seq<Sample>, cutoff: int, t: int)
    ensures AtTime(Since(s, cutoff), t) == if t >= cutoff then AtTime(s, t) else []
  {
    if s == [] {
    } else {
      var n := |s| - 1;
      SinceAtTime(s[..n], cutoff, t);
      AtTimeAppend(Since(s[..n], cutoff), if s[n].at >= cutoff then [s[n]] else [], t);
      AtTimeOne(s[n], t);
    }
  }

  lemma AtTimeOne(x: Sample, t: int)
    ensures AtTime([x], t) == if x.at == t then [x] else []
    ensures AtTime([], t) == []
  {
  }

  lemma {:induction false} OrderedAbove(s: seq<Sample>, t: int)
    requires Ordered(s) && AtTime(s, t) != []
    ensures s != [] && t <= s[|s|-1].at
  {
    var n := |s| - 1;
    if s[n].at != t {
      OrderedAbove(s[..n], t);
    }
  }

  /** A time-ordered sequence is determined by what it holds per instant. */
  lemma {:induction false} OrderedDetermined(a: seq<Sample>, b: seq<Sample>)
    requires Ordered(a) && Ordered(b)
    requires forall t :: AtTime(a, t) == AtTime(b, t)
    ensures a == b
  {
    hide AtTime;
    if a == [] || b == [] {
      NonEmptyAlike(a, b);
    } else {
      var m, n := |a| - 1, |b| - 1;
      OrderedLast(a, b);
      forall t
        ensures AtTime(a[..m], t) == AtTime(b[..n], t)
      {
        AtTimePop(a, t);
        AtTimePop(b, t);
      }
      OrderedDetermined(a[..m], b[..n]);
      assert a == a[..m] + [a[m]] && b == b[..n] + [b[n]];
    }
  }

  lemma NonEmptyAlike(a: seq<Sample>, b: seq<Sample>)
    requires forall t :: AtTime(a, t) == AtTime(b, t)
    ensures a == [] <==> b == []
  {
    if a != [] {
      AtTimePop(a, a[|a|-1].at);
    }
    if b != [] {
      AtTimePop(b, b[|b|-1].at);
    }
  }

  lemma OrderedLast(a: seq<Sample>, b: seq<Sample>)
    requires a != [] && b != [] && Ordered(a) && Ordered(b)
    requires forall t :: AtTime(a, t) == AtTime(b, t)
    ensures a[|a|-1] == b[|b|-1]
  {
    var x, y := a[|a|-1], b[|b|-1];
    AtTimePop(a, x.at);
    AtTimePop(b, y.at);
    OrderedAbove(a, y.at);
    OrderedAbove(b, x.at);
    AtTimePop(b, x.at);
  }

  lemma AtTimePop(s: seq<Sample>, t: int)
    requires s != []
    ensures var x, all := s[|s|-1], AtTime(s, t);
            if x.at == t then all != [] && all[|all|-1] == x && AtTime(s[..|s|-1], t) == all[..|all|-1]
            else AtTime(s[..|s|-1], t) == all
  {
  }

  // ---- The trimmed buffer refines the full history ---------------------------

  lemma {:induction false} SortByTimeIsStableSort(h: seq<Sample>)
    ensures IsStableSort(h, SortByTime(h))
  {
    if h == [] {
    } else {
      var n := |h| - 1;
      SortByTimeIsStableSort(h[..n]);
      InsertOrdered(SortByTime(h[..n]), h[n]);
      forall t
        ensures AtTime(SortByTime(h), t) == AtTime(h, t)
      {
        InsertAtTime(SortByTime(h[..n]), h[n], t);
      }
    }
  }

  lemma StableSortUnique(h: seq<Sample>, s: seq<Sample>)
    requires IsStableSort(h, s)
    ensures s == SortByTime(h)
  {
    SortByTimeIsStableSort(h);
    OrderedDetermined(s, SortByTime(h));
  }

  lemma {:induction false} SortByTimeNewest(h: seq<Sample>)
    requires h != []
    ensures var s := SortByTime(h);
            s != [] && s[|s|-1].at == Newest(h)
  {
    var n := |h| - 1;
    if n == 0 {
    } else {
      SortByTimeNewest(h[..n]);
    }
    InsertLast(SortByTime(h[..n]), h[n]);
  }

  lemma {:induction false} SinceTwice(s: seq<Sample>, c1: int, c2: int)
    requires c1 <= c2
    ensures Since(Since(s, c1), c2) == Since(s, c2)
  {
    if s == [] {
    } else {
      var n := |s| - 1;
      SinceTwice(s[..n], c1, c2);
      if s[n].at >= c1 {
        var kept := Since(s[..n], c1) + [s[n]];
        assert kept[..|kept|-1] == Since(s[..n], c1);
      } else {
        assert Since(s, c1) == Since(s[..n], c1);
      }
    }
  }

  /** Dropping old samples before or after an insertion leaves the same. */
  lemma {:induction false} InsertSince(s: seq<Sample>, x: Sample, c: int, c': int)
    requires Ordered(s) && c <= c'
    ensures Since(Insert(Since(s, c), x), c') == Since(Insert(s, x), c')
  {
    SinceOrdered(s, c);
    InsertOrdered(s, x);
    InsertOrdered(Since(s, c), x);
    SinceOrdered(Insert(s, x), c');
    SinceOrdered(Insert(Since(s, c), x), c');
    forall t
      ensures AtTime(Since(Insert(Since(s, c), x), c'), t) == AtTime(Since(Insert(s, x), c'), t)
    {
      SinceAtTime(Insert(Since(s, c), x), c', t);
      SinceAtTime(Insert(s, x), c', t);
      InsertAtTime(Since(s, c), x, t);
      InsertAtTime(s, x, t);
      SinceAtTime(s, c, t);
    }
    OrderedDetermined(Since(Insert(Since(s, c), x), c'), Since(Insert(s, x), c'));
  }

  /** Whatever the arrival order, the buffer is the stable sort of the whole history,
      restricted to what lies within maxWindow of the newest sample ever seen. */
  lemma {:induction false} BufferRefinesHistory(h: seq<Sample>, maxWindow: int)
    requires h != []
    ensures Buffer(h, maxWindow) == Since(SortByTime(h), Newest(h) - maxWindow)
  {
    hide Insert, Since, Arrive, AtTime, Newest;
    var n := |h| - 1;
    SortByTimeNewest(h);
    SortByTimeIsStableSort(h[..n]);
    if n == 0 {
      FirstArrival(h[n], maxWindow);
    } else {
      SortByTimeNewest(h[..n]);
      BufferRefinesHistory(h[..n], maxWindow);
      NextArrival(SortByTime(h[..n]), h[n], maxWindow);
    }
  }

  lemma FirstArrival(x: Sample, maxWindow: int)
    ensures Insert([], x) == [x]
    ensures Arrive([], maxWindow, x) == Since([x], x.at - maxWindow)
  {
  }

  /** Trimming by the newest so far loses nothing that the next arrival would keep. */
  lemma NextArrival(full: seq<Sample>, x: Sample, maxWindow: int)
    requires full != [] && Ordered(full)
    ensures var grown := Insert(full, x);
            && grown != []
            && Arrive(Since(full, full[|full|-1].at - maxWindow), maxWindow, x)
            == Since(grown, grown[|grown|-1].at - maxWindow)
  {
    InsertLast(full, x);
    if maxWindow >= 0 {
      NewestKept(full, x, maxWindow);
    } else {
      NothingKept(full, x, maxWindow);
    }
  }

  lemma SinceLast(s: seq<Sample>, c: int)
    requires s != [] && s[|s|-1].at >= c
    ensures var kept := Since(s, c);
            kept != [] && kept[|kept|-1] == s[|s|-1]
  {
  }

  lemma NewestKept(full: seq<Sample>, x: Sample, maxWindow: nat)
    requires full != [] && Ordered(full) && Insert(full, x) != []
    ensures var grown := Insert(full, x);
            Arrive(Since(full, full[|full|-1].at - maxWindow), maxWindow, x)
            == Since(grown, grown[|grown|-1].at - maxWindow)
  {
    hide Insert, Since, AtTime, Ordered;
    var c := full[|full|-1].at - maxWindow;
    var kept, grown := Since(full, c), Insert(full, x);
    SinceLast(full, c);
    InsertLast(kept, x);
    InsertLast(full, x);
    InsertSince(full, x, c, grown[|grown|-1].at - maxWindow);
  }

  lemma NothingKept(full: seq<Sample>, x: Sample, maxWindow: int)
    requires full != [] && Ordered(full) && Insert(full, x) != [] && maxWindow < 0
    ensures var grown := Insert(full, x);
            Arrive(Since(full, full[|full|-1].at - maxWindow), maxWindow, x)
            == Since(grown, grown[|grown|-1].at - maxWindow)
  {
    hide Insert, Since, Ordered;
    var grown := Insert(full, x);
    NothingLater(full, full[|full|-1].at - maxWindow);
    InsertOrdered(full, x);
    NothingLater(grown, grown[|grown|-1].at - maxWindow);
    FirstArrival(x, maxWindow);
    SingleOrdered(x);
    NothingLater([x], x.at - maxWindow);
  }

  lemma NothingLater(s: seq<Sample>, c: int)
    requires s != [] && Ordered(s) && s[|s|-1].at < c
    ensures Since(s, c) == []
  {
  }

  lemma SingleOrdered(x: Sample)
    ensures Ordered([x])
  {
  }

  /** The buffer depends only on what arrived per instant. */
  lemma BufferDetermined(h1: seq<Sample>, h2: seq<Sample>, maxWindow: int)
    requires forall t :: AtTime(h1, t) == AtTime(h2, t)
    ensures Buffer(h1, maxWindow) == Buffer(h2, maxWindow)
  {
    hide Insert, Since, Arrive, AtTime, Newest;
    NonEmptyAlike(h1, h2);
    if h1 != [] {
      SortByTimeIsStableSort(h1);
      SortByTimeIsStableSort(h2);
      OrderedDetermined(SortByTime(h1), SortByTime(h2));
      SortByTimeNewest(h1);
      SortByTimeNewest(h2);
      BufferRefinesHistory(h1, maxWindow);
      BufferRefinesHistory(h2, maxWindow);
    }
  }

  /** Statistics from the trimmed buffer are statistics of the full history, for every
      window no longer than maxWindow asked about no earlier than the newest sample. */
  lemma StatsOfFullHistory(sqrt: real -> real, h: seq<Sample>, maxWindow: int, now: int, window: int)
    requires h != [] && window <= maxWindow && now >= Newest(h)
    ensures StatsSince(sqrt, Buffer(h, maxWindow), now - window) == StatsSince(sqrt, SortByTime(h), now - window)
  {
    hide Since, Newest, ComputeStats, Buffer, SortByTime;
    BufferRefinesHistory(h, maxWindow);
    SinceTwice(SortByTime(h), Newest(h) - maxWindow, now - window);
  }

  /** For any cutoff at all, the trim is invisible exactly when no sample lies
      both inside the window asked about and before the trim point. */
  lemma TrimInvisibleIff(h: seq<Sample>, maxWindow: int, cutoff: int)
    requires h != []
    ensures Since(Buffer(h, maxWindow), cutoff) == Since(SortByTime(h), cutoff)
            <==> forall i :: 0 <= i < |h| && h[i].at >= cutoff ==> h[i].at >= Newest(h) - maxWindow
  {
    hide Insert, Since, Arrive, AtTime, Newest;
    var c, full := Newest(h) - maxWindow, SortByTime(h);
    BufferRefinesHistory(h, maxWindow);
    SortByTimeIsStableSort(h);
    forall t
      ensures AtTime(Since(Since(full, c), cutoff), t) == if t >= cutoff && t >= c then AtTime(h, t) else []
      ensures AtTime(Since(full, cutoff), t) == if t >= cutoff then AtTime(h, t) else []
    {
      SinceAtTime(Since(full, c), cutoff, t);
      SinceAtTime(full, c, t);
      SinceAtTime(full, cutoff, t);
    }
    if forall i :: 0 <= i < |h| && h[i].at >= cutoff ==> h[i].at >= c {
      forall t
        ensures AtTime(Since(Since(full, c), cutoff), t) == AtTime(Since(full, cutoff), t)
      {
        if cutoff <= t < c {
          AtTimeEmpty(h, t);
        }
      }
      SinceOrdered(full, c);
      SinceOrdered(Since(full, c), cutoff);
      SinceOrdered(full, cutoff);
      OrderedDetermined(Since(Since(full, c), cutoff), Since(full, cutoff));
    } else {
      var i :| 0 <= i < |h| && cutoff <= h[i].at < c;
      AtTimeNonEmpty(h, i);
      assert AtTime(Since(Since(full, c), cutoff), h[i].at) != AtTime(Since(full, cutoff), h[i].at);
    }
  }

  lemma {:induction false} AtTimeNonEmpty(s: seq<Sample>, i: nat)
    requires i < |s|
    ensures s[i] in AtTime(s, s[i].at)
  {
    if i == |s| - 1 {
    } else {
      AtTimeNonEmpty(s[..|s|-1], i);
    }
  }

  // ---- Bounds on the statistics ----------------------------------------------

  function Uniform(n: nat, w: real): (ws: seq<real>)
    ensures |ws| == n
  {
    seq(n, _ => w)
  }

  lemma {:induction false} UniformMoments(w: real, xs: seq<real>, c: real)
    ensures var ws := Uniform(|xs|, w);
            && Dot(ws, xs) == Times(w, Sum(xs))
            && Spread(ws, xs, c) == Times(w, SquaredDeviations(xs, c))
            && Sum(ws) == Times(w, |xs| as real)
  {
    hide Times, Square;
    var n := |xs| - 1;
    if xs == [] {
      TimesZero(w, w);
    } else {
      var ws := Uniform(|xs|, w);
      UniformMoments(w, xs[..n], c);
      assert ws[..n] == Uniform(n, w);
      TimesAdds(w, Sum(xs[..n]), xs[n]);
      TimesAdds(w, SquaredDeviations(xs[..n], c), Square(xs[n] - c));
      TimesAdds(w, n as real, 1.0);
      TimesOne(w);
    }
  }

  lemma TimesReciprocal(n: real, a: real)
    requires n > 0.0
    ensures Times(1.0 / n, a) == a / n && Times(1.0 / n, n) == 1.0
  {
  }

  ghost predicate WithinExtremes(st: WindowStats) {
    && st.min <= st.movingAvg <= st.max
    && 0.0 <= st.movingStddev
    && st.movingStddev * st.movingStddev <= (st.max - st.movingAvg) * (st.movingAvg - st.min)
  }

  lemma StatsBounds(sqrt: real -> real, s: seq<Sample>)
    requires s != [] && IsSqrt(sqrt)
    ensures WithinExtremes(ComputeStats(sqrt, s))
  {
    hide Dot, Spread, Sum, SquaredDeviations, MinOf, MaxOf;
    var vs := Values(s);
    var avg := Sum(vs) / |s| as real;
    PlainVarianceBound(vs, avg);
    var stats := ComputeStats(sqrt, s);
    assert stats.movingStddev * stats.movingStddev == SquaredDeviations(vs, avg) / |s| as real;
  }

  /** The unweighted form of the bound on a variance by the extremes. */
  lemma PlainVarianceBound(vs: seq<real>, avg: real)
    requires vs != [] && avg == Sum(vs) / |vs| as real
    ensures MinOf(vs) <= avg <= MaxOf(vs)
    ensures 0.0 <= SquaredDeviations(vs, avg) / |vs| as real <= (MaxOf(vs) - avg) * (avg - MinOf(vs))
  {
    hide Dot, Spread, Sum, SquaredDeviations, Times, MinOf, MaxOf;
    var n := |vs| as real;
    var ws := Uniform(|vs|, 1.0 / n);
    UniformMoments(1.0 / n, vs, avg);
    TimesReciprocal(n, Sum(vs));
    TimesReciprocal(n, SquaredDeviations(vs, avg));
    assert NonNegative(ws);
    MeanAndVarianceBounds(ws, vs, MinOf(vs), MaxOf(vs), avg);
  }

  /** What the statistics of a window are, said of its samples and without the formulas that compute them. */
  ghost predicate Describes(st: WindowStats, s: seq<Sample>)
    requires s != []
  {
    var n, microseconds := |s| - 1, s[|s|-1].at - s[0].at;
    && st.count == |s|
    && Times(st.movingAvg, |s| as real) == Sum(Values(s))
    && st.movingStddev >= 0.0 && Times(Square(st.movingStddev), |s| as real) == SquaredDeviations(Values(s), st.movingAvg)
    && (exists i :: 0 <= i < |s| && s[i].value == st.min) && (exists i :: 0 <= i < |s| && s[i].value == st.max)
    && (forall i :: 0 <= i < |s| ==> st.min <= s[i].value <= st.max)
    && (if microseconds > 0 then Times(st.rateOfChange, microseconds as real) == Times(s[n].value - s[0].value, 1000000.0)
        else st.rateOfChange == 0.0)
  }

  lemma StatsDescribe(sqrt: real -> real, s: seq<Sample>)
    requires s != [] && IsSqrt(sqrt)
    ensures Describes(ComputeStats(sqrt, s), s)
  {
    hide Sum, SquaredDeviations, MinOf, MaxOf, Seconds, RateOfChange, Times, Square;
    var vs, st, n := Values(s), ComputeStats(sqrt, s), |s| as real;
    PlainVarianceBound(vs, st.movingAvg);
    QuotientTimes(Sum(vs), n);
    var variance := SquaredDeviations(vs, st.movingAvg) / n;
    QuotientTimes(SquaredDeviations(vs, st.movingAvg), n);
    SquareOfSqrt(sqrt, variance);
    var i :| 0 <= i < |vs| && vs[i] == MinOf(vs);
    var j :| 0 <= j < |vs| && vs[j] == MaxOf(vs);
    assert s[i].value == st.min && s[j].value == st.max;
    forall k | 0 <= k < |s|
      ensures st.min <= s[k].value <= st.max
    {
      assert MinOf(vs) <= vs[k] <= MaxOf(vs);
    }
    RateTimesElapsed(s);
  }

  lemma QuotientTimes(p: real, n: real)
    requires n > 0.0
    ensures Times(p / n, n) == p
  {
    assert p / n * n == p;
  }

  lemma SquareOfSqrt(sqrt: real -> real, v: real)
    requires IsSqrt(sqrt) && v >= 0.0
    ensures sqrt(v) >= 0.0 && Square(sqrt(v)) == v
  {
  }

  lemma RateTimesElapsed(s: seq<Sample>)
    requires s != []
    ensures var n, microseconds := |s| - 1, s[|s|-1].at - s[0].at;
            if microseconds > 0 then Times(RateOfChange(s), microseconds as real) == Times(s[n].value - s[0].value, 1000000.0)
            else RateOfChange(s) == 0.0
  {
    hide Seconds, Times;
    var n, microseconds := |s| - 1, s[|s|-1].at - s[0].at;
    var elapsed := Seconds(microseconds);
    SecondsPositive(microseconds);
    if microseconds > 0 {
      QuotientTimes(s[n].value - s[0].value, elapsed);
      SecondsIs(RateOfChange(s), microseconds);
    }
  }

  lemma SecondsIs(k: real, t: int)
    ensures Times(k, t as real) == Times(Times(k, Seconds(t)), 1000000.0)
  {
    assert Seconds(t) * 1000000.0 == t as real;
  }

  lemma {:induction false} SinceIff(s: seq<Sample>, cutoff: int)
    ensures forall x :: x in Since(s, cutoff) <==> x in s && x.at >= cutoff
  {
    if s == [] {
    } else {
      var n := |s| - 1;
      SinceIff(s[..n], cutoff);
      assert s == s[..n] + [s[n]];
    }
  }

  /** A query answers exactly when some sample lies at or after the cutoff, and then describes those samples. */
  lemma QueryDescribes(sqrt: real -> real, s: seq<Sample>, cutoff: int)
    requires IsSqrt(sqrt)
    ensures StatsSince(sqrt, s, cutoff).Some? <==> exists x :: x in s && x.at >= cutoff
    ensures StatsSince(sqrt, s, cutoff).Some? ==>
              Since(s, cutoff) != [] && Describes(StatsSince(sqrt, s, cutoff).value, Since(s, cutoff))
  {
    hide ComputeStats, Describes, Since;
    var kept := Since(s, cutoff);
    SinceIff(s, cutoff);
    if kept != [] {
      assert kept[0] in kept;
      StatsDescribe(sqrt, kept);
    }
  }

  /** The slopes, in units per second, between consecutive samples. */
  function Slopes(s: seq<Sample>): (ks: seq<real>)
    requires s != [] && Increasing(s)
    ensures |ks| == |s| - 1
  {
    seq(|s| - 1, i requires 0 <= i < |s| - 1 => Slope(s[i], s[i+1]))
  }

  function Slope(a: Sample, b: Sample): real
    requires a.at < b.at
  {
    (b.value - a.value) / Seconds(b.at - a.at)
  }

  ghost predicate Increasing(s: seq<Sample>) {
    forall i, j :: 0 <= i < j < |s| ==> s[i].at < s[j].at
  }

  lemma SlopeRise(a: Sample, b: Sample, lo: real, hi: real)
    requires a.at < b.at && lo <= Slope(a, b) <= hi
    ensures Times(lo, Seconds(b.at - a.at)) <= b.value - a.value <= Times(hi, Seconds(b.at - a.at))
  {
    var e, k := Seconds(b.at - a.at), Slope(a, b);
    assert k * e == b.value - a.value;
    ScaleOrder(e, lo, k);
    ScaleOrder(e, k, hi);
  }

  lemma RiseAdds(lo: real, hi: real, e: real, r: real, e': real, r': real)
    requires Times(lo, e) <= r <= Times(hi, e) && Times(lo, e') <= r' <= Times(hi, e')
    ensures Times(lo, e + e') <= r + r' <= Times(hi, e + e')
  {
    hide Times;
    TimesAdds(lo, e, e');
    TimesAdds(hi, e, e');
  }

  lemma SecondsAdd(t: int, u: int)
    ensures Seconds(t + u) == Seconds(t) + Seconds(u)
  {
  }

  lemma {:induction false} TotalRise(s: seq<Sample>, lo: real, hi: real)
    requires s != [] && Increasing(s)
    requires Between(Slopes(s), lo, hi)
    ensures var n := |s| - 1;
            Times(lo, Seconds(s[n].at - s[0].at)) <= s[n].value - s[0].value <= Times(hi, Seconds(s[n].at - s[0].at))
  {
    hide Times, Slope, Seconds, Slopes;
    var n := |s| - 1;
    if n == 0 {
      SecondsAdd(0, 0);
      TimesZero(lo, hi);
    } else {
      SlopesPrefix(s);
      TotalRise(s[..n], lo, hi);
      SlopeRise(s[n-1], s[n], lo, hi);
      SecondsAdd(s[n-1].at - s[0].at, s[n].at - s[n-1].at);
      RiseAdds(lo, hi, Seconds(s[n-1].at - s[0].at), s[n-1].value - s[0].value,
               Seconds(s[n].at - s[n-1].at), s[n].value - s[n-1].value);
    }
  }

  lemma SlopesPrefix(s: seq<Sample>)
    requires |s| > 1 && Increasing(s)
    ensures var n := |s| - 1;
            && Increasing(s[..n])
            && Slopes(s)[..n-1] == Slopes(s[..n])
            && Slopes(s)[n-1] == Slope(s[n-1], s[n])
  {
    hide Slope;
  }

  /** With strictly increasing times, the rate of change is a mean slope. */
  lemma RateBounds(sqrt: real -> real, s: seq<Sample>)
    requires |s| > 1 && Increasing(s)
    ensures MinOf(Slopes(s)) <= ComputeStats(sqrt, s).rateOfChange <= MaxOf(Slopes(s))
  {
    hide MinOf, MaxOf, Sum, SquaredDeviations, Seconds, Slopes, Times, RateOfChange;
    TotalRise(s, MinOf(Slopes(s)), MaxOf(Slopes(s)));
    RateIsQuotient(s);
    RateOfRise(s[|s|-1].value - s[0].value, Seconds(s[|s|-1].at - s[0].at), MinOf(Slopes(s)), MaxOf(Slopes(s)));
  }

  lemma RateIsQuotient(s: seq<Sample>)
    requires |s| > 1 && Increasing(s)
    ensures var n := |s| - 1;
            var elapsed := Seconds(s[n].at - s[0].at);
            elapsed > 0.0 && RateOfChange(s) == (s[n].value - s[0].value) / elapsed
  {
    SecondsPositive(s[|s|-1].at - s[0].at);
  }

  lemma SecondsPositive(t: int)
    ensures Seconds(t) > 0.0 <==> t > 0
  {
  }

  lemma RateOfRise(rise: real, elapsed: real, lo: real, hi: real)
    requires elapsed > 0.0 && Times(lo, elapsed) <= rise <= Times(hi, elapsed)
    ensures lo <= rise / elapsed <= hi
  {
    QuotientOrder(lo * elapsed, rise, elapsed);
    QuotientOrder(rise, hi * elapsed, elapsed);
    Quotient(lo * elapsed, lo, elapsed);
    Quotient(hi * elapsed, hi, elapsed);
  }
}
