// Heating-cycle detection for the zone sensors: a two-state idle/heating
// machine over a device's time-sorted readings, the merge of cycles separated
// by short gaps, and the per-day tables built from the cycles' start dates.
// Timestamps are whole seconds of naive wall-clock time, temperatures tenths
// of a degree, and a date is a day number (`timestamp / 86400`).

module HeatingCycles {
  import opened Text
  import Sorting

  /** +5.0 degrees above the daily minimum starts a cycle. */
  const TempRiseAboveMin: int := 50
  /** 1.0 degree below the cycle maximum ends it. */
  const TempDropBelowMax: int := -10
  /** Cycles at most 15 minutes apart are merged. */
  const MinGapSeconds: int := 15 * 60
  const SecondsPerDay: int := 86400

  datatype Sample = Sample(timestamp: int, temperature: int)

  /** A detected cycle; `durationSeconds` is `end - start`. */
  datatype Cycle = Cycle(start: int, end: int, maxTemp: int, durationSeconds: int)

  datatype HeatingError = DeviceNotFound(name: string)

  function Day(t: int): int { t / SecondsPerDay }

  function ByTime(x: Sample): int { x.timestamp }

  /** `_get_device_data`: an unknown device is an error; otherwise its readings sorted by time. */
  function GetDeviceData(devices: map<string, seq<Sample>>, name: string): (r: Result<seq<Sample>, HeatingError>)
    ensures r.Err? <==> name !in devices
    ensures r.Ok? ==> Sorting.SortedBy(r.value, ByTime) && multiset(r.value) == multiset(devices[name])
  {
    if name !in devices then Err(DeviceNotFound(name)) else Ok(Sorting.SortBy(devices[name], ByTime))
  }

  // ---------------------------------------------------------------------
  // Daily minimums (`_calculate_daily_minimums`)
  // ---------------------------------------------------------------------

  /** The lowest temperature among the readings dated `d`, if there are any. */
  function MinOn(s: seq<Sample>, d: int): (r: Option<int>)
    ensures r.None? <==> forall k | 0 <= k < |s| :: Day(s[k].timestamp) != d
    ensures r.Some? ==> forall k | 0 <= k < |s| && Day(s[k].timestamp) == d :: r.value <= s[k].temperature
    ensures r.Some? ==> exists k | 0 <= k < |s| :: Day(s[k].timestamp) == d && s[k].temperature == r.value
  {
    if |s| == 0 then None
    else
      var front, x := s[..|s| - 1], s[|s| - 1];
      var m := MinOn(front, d);
      assert forall k | 0 <= k < |front| :: front[k] == s[k];
      if Day(x.timestamp) != d then m
      else if m.None? || x.temperature < m.value then Some(x.temperature)
      else m
  }

  function DaysOf(s: seq<Sample>): set<int>
  {
    set k | 0 <= k < |s| :: Day(s[k].timestamp)
  }

  /** One entry per date that has readings: that date's minimum. */
  function DailyMinimums(s: seq<Sample>): map<int, int>
  {
    map d | d in DaysOf(s) :: MinOn(s, d).value
  }

  /** Every reading's date has a minimum, no higher than the reading, and each minimum is some reading of that date. */
  lemma DailyMinimumsProperties(s: seq<Sample>)
    ensures forall k | 0 <= k < |s| ::
      Day(s[k].timestamp) in DailyMinimums(s) && DailyMinimums(s)[Day(s[k].timestamp)] <= s[k].temperature
    ensures forall d | d in DailyMinimums(s) ::
      exists k | 0 <= k < |s| :: Day(s[k].timestamp) == d && s[k].temperature == DailyMinimums(s)[d]
  {
    forall k | 0 <= k < |s| ensures Day(s[k].timestamp) in DaysOf(s) { }
  }

  // ---------------------------------------------------------------------
  // The detection machine (`_detect_raw_cycles`)
  // ---------------------------------------------------------------------

  /** A cycle as positions in the readings: the start reading, the end reading and the maximum. */
  datatype Span = Span(first: nat, last: nat, maxTemp: int)

  /** The machine state: the spans closed so far, and the open cycle while heating. */
  datatype Machine = Idle(spans: seq<Span>) | Heating(spans: seq<Span>, first: nat, maxTemp: int)

  /** One reading; a reading whose date has no minimum is skipped. */
  function Step(m: Machine, s: seq<Sample>, i: nat, mins: map<int, int>): Machine
    requires i < |s|
  {
    var x := s[i];
    var day := Day(x.timestamp);
    if day !in mins then m
    else match m
      case Idle(spans) =>
        if x.temperature >= mins[day] + TempRiseAboveMin then Heating(spans, i, x.temperature) else m
      case Heating(spans, first, mx) =>
        var top := if x.temperature > mx then x.temperature else mx;
        if x.temperature <= top + TempDropBelowMax then Idle(spans + [Span(first, i, top)])
        else Heating(spans, first, top)
  }

  /** The state after the first `n` readings. */
  function Run(s: seq<Sample>, mins: map<int, int>, n: nat): Machine
    requires n <= |s|
  {
    if n == 0 then Idle([]) else Step(Run(s, mins, n - 1), s, n - 1, mins)
  }

  /** The spans found, a cycle still open at the end closing at the last reading; fewer than two readings give none. */
  function RawSpans(s: seq<Sample>, mins: map<int, int>): seq<Span>
  {
    if |s| < 2 then []
    else match Run(s, mins, |s|)
      case Idle(spans) => spans
      case Heating(spans, first, mx) => spans + [Span(first, |s| - 1, mx)]
  }

  /** The highest temperature among readings `lo .. hi - 1`. */
  function MaxOver(s: seq<Sample>, lo: nat, hi: nat): int
    requires lo < hi <= |s|
  {
    if hi == lo + 1 then s[lo].temperature
    else
      var m := MaxOver(s, lo, hi - 1);
      if s[hi - 1].temperature > m then s[hi - 1].temperature else m
  }

  lemma {:induction false} MaxOverBounds(s: seq<Sample>, lo: nat, hi: nat)
    requires lo < hi <= |s|
    ensures forall j | lo <= j < hi :: s[j].temperature <= MaxOver(s, lo, hi)
    ensures exists j | lo <= j < hi :: s[j].temperature == MaxOver(s, lo, hi)
  {
    if hi == lo + 1 {
      assert s[lo].temperature == MaxOver(s, lo, hi);
    } else {
      MaxOverBounds(s, lo, hi - 1);
      if s[hi - 1].temperature <= MaxOver(s, lo, hi - 1) {
        var j :| lo <= j < hi - 1 && s[j].temperature == MaxOver(s, lo, hi - 1);
        assert s[j].temperature == MaxOver(s, lo, hi);
      } else {
        assert s[hi - 1].temperature == MaxOver(s, lo, hi);
      }
    }
  }

  predicate AllDaysKnown(s: seq<Sample>, mins: map<int, int>)
  {
    forall j | 0 <= j < |s| :: Day(s[j].timestamp) in mins
  }

  function LastEnd(spans: seq<Span>): int
  {
    if |spans| == 0 then -1 else spans[|spans| - 1].last
  }

  function PrevEnd(spans: seq<Span>, k: nat): int
    requires k < |spans|
  {
    if k == 0 then -1 else spans[k - 1].last
  }

  /** A span inside the first `n` readings that ends after it starts. */
  predicate Inside(sp: Span, n: nat) { sp.first < sp.last < n }

  predicate Ordered(a: Span, b: Span) { a.last < b.first }

  /** Spans lie inside the first `n` readings and follow one another; an open cycle starts after them. */
  predicate Structured(m: Machine, n: nat)
  {
    var sp := m.spans;
    (forall k | 0 <= k < |sp| :: Inside(sp[k], n))
    && (forall k | 1 <= k < |sp| :: Ordered(sp[k - 1], sp[k]))
    && (m.Heating? ==> LastEnd(sp) < m.first < n)
  }

  /** What the first reading's state has and every step keeps, the state after `n` readings has. */
  lemma {:induction false} RunInduction(s: seq<Sample>, mins: map<int, int>, n: nat, inv: (Machine, nat) -> bool)
    requires n <= |s| && inv(Idle([]), 0)
    requires forall m: Machine, k: nat {:trigger Step(m, s, k, mins)} | k < n && inv(m, k) :: inv(Step(m, s, k, mins), k + 1)
    ensures inv(Run(s, mins, n), n)
  {
    if n > 0 {
      RunInduction(s, mins, n - 1, inv);
      assert Run(s, mins, n) == Step(Run(s, mins, n - 1), s, n - 1, mins);
    }
  }

  lemma StepStructured(s: seq<Sample>, mins: map<int, int>, m: Machine, n: nat)
    requires n < |s| && Structured(m, n)
    ensures Structured(Step(m, s, n, mins), n + 1)
  {
    var m' := Step(m, s, n, mins);
    if m.Heating? && m'.Idle? {
      var sp := m.spans;
      assert forall k | 0 <= k < |sp| :: m'.spans[k] == sp[k];
      assert m'.spans[|sp|].first == m.first && m'.spans[|sp|].last == n;
    }
  }

  lemma RunStructured(s: seq<Sample>, mins: map<int, int>, n: nat)
    requires n <= |s|
    ensures Structured(Run(s, mins, n), n)
  {
    forall m: Machine, k: nat | k < n && Structured(m, k)
      ensures Structured(Step(m, s, k, mins), k + 1)
    {
      StepStructured(s, mins, m, k);
    }
    RunInduction(s, mins, n, (m: Machine, k: nat) => Structured(m, k));
  }

  /** The span's maximum is the highest of the readings it covers. */
  predicate SpanMax(s: seq<Sample>, sp: Span)
  {
    sp.first < sp.last < |s| && sp.maxTemp == MaxOver(s, sp.first, sp.last + 1)
  }

  /** Every span's maximum is the highest reading it covers; while heating, the running maximum is. */
  predicate Maxima(s: seq<Sample>, m: Machine, n: nat)
    requires n <= |s| && Structured(m, n)
  {
    var sp := m.spans;
    (forall k | 0 <= k < |sp| :: SpanMax(s, sp[k]))
    && (m.Heating? ==> m.maxTemp == MaxOver(s, m.first, n))
  }

  lemma StepMaxima(s: seq<Sample>, mins: map<int, int>, m: Machine, n: nat)
    requires n < |s| && AllDaysKnown(s, mins) && Structured(m, n) && Maxima(s, m, n)
    ensures Structured(Step(m, s, n, mins), n + 1) && Maxima(s, Step(m, s, n, mins), n + 1)
  {
    StepStructured(s, mins, m, n);
    assert Day(s[n].timestamp) in mins;
    match m
    case Idle(sp) =>
    case Heating(sp, first, mx) =>
      var top := MaxOver(s, first, n + 1);
      assert top == if s[n].temperature > mx then s[n].temperature else mx;
      if s[n].temperature <= top + TempDropBelowMax {
        var sp' := sp + [Span(first, n, top)];
        assert Step(m, s, n, mins) == Idle(sp');
        assert forall k | 0 <= k < |sp| :: sp'[k] == sp[k];
      } else {
        assert Step(m, s, n, mins) == Heating(sp, first, top);
      }
  }

  lemma {:induction false} RunMaxima(s: seq<Sample>, mins: map<int, int>, n: nat)
    requires n <= |s| && AllDaysKnown(s, mins)
    ensures Structured(Run(s, mins, n), n) && Maxima(s, Run(s, mins, n), n)
  {
    if n > 0 {
      var prev := Run(s, mins, n - 1);
      RunMaxima(s, mins, n - 1);
      StepMaxima(s, mins, prev, n - 1);
      assert Run(s, mins, n) == Step(prev, s, n - 1, mins);
    }
  }

  /** Reading `j` is at least 5 degrees above its date's minimum. */
  predicate Hot(s: seq<Sample>, mins: map<int, int>, j: nat)
  {
    j < |s| && Day(s[j].timestamp) in mins && s[j].temperature >= mins[Day(s[j].timestamp)] + TempRiseAboveMin
  }

  /** Every cycle starts at a reading at least 5 degrees above its date's minimum. */
  predicate Starts(s: seq<Sample>, mins: map<int, int>, m: Machine)
  {
    var sp := m.spans;
    (forall k | 0 <= k < |sp| :: Hot(s, mins, sp[k].first))
    && (m.Heating? ==> Hot(s, mins, m.first))
  }

  lemma StepStarts(s: seq<Sample>, mins: map<int, int>, m: Machine, n: nat)
    requires n < |s| && Starts(s, mins, m)
    ensures Starts(s, mins, Step(m, s, n, mins))
  {
    match m
    case Idle(sp) =>
    case Heating(sp, first, mx) =>
      var m' := Step(m, s, n, mins);
      if m'.Idle? {
        assert forall k | 0 <= k < |sp| :: m'.spans[k] == sp[k];
        assert m'.spans[|sp|].first == first;
      }
  }

  lemma {:induction false} RunStarts(s: seq<Sample>, mins: map<int, int>, n: nat)
    requires n <= |s|
    ensures Starts(s, mins, Run(s, mins, n))
  {
    if n > 0 {
      var prev := Run(s, mins, n - 1);
      RunStarts(s, mins, n - 1);
      StepStarts(s, mins, prev, n - 1);
      assert Run(s, mins, n) == Step(prev, s, n - 1, mins);
    }
  }

  /** No reading after `first` and before `hi` is 1 degree below the maximum so far. */
  predicate Rising(s: seq<Sample>, first: nat, hi: nat)
  {
    hi <= |s| && forall j | first < j < hi :: s[j].temperature > MaxOver(s, first, j + 1) + TempDropBelowMax
  }

  /** The span ends at the first reading 1 degree below its running maximum. */
  predicate Dropped(s: seq<Sample>, sp: Span)
  {
    sp.last < |s| && s[sp.last].temperature <= sp.maxTemp + TempDropBelowMax && Rising(s, sp.first, sp.last)
  }

  /** Every cycle ends at the first reading at least 1 degree below its running maximum. */
  predicate Closes(s: seq<Sample>, m: Machine, n: nat)
  {
    var sp := m.spans;
    (forall k | 0 <= k < |sp| :: Dropped(s, sp[k]))
    && (m.Heating? ==> Rising(s, m.first, n))
  }

  lemma StepCloses(s: seq<Sample>, mins: map<int, int>, m: Machine, n: nat)
    requires n < |s| && AllDaysKnown(s, mins) && Structured(m, n) && Maxima(s, m, n) && Closes(s, m, n)
    ensures Closes(s, Step(m, s, n, mins), n + 1)
  {
    assert Day(s[n].timestamp) in mins;
    match m
    case Idle(sp) =>
    case Heating(sp, first, mx) =>
      var top := MaxOver(s, first, n + 1);
      assert top == if s[n].temperature > mx then s[n].temperature else mx;
      if s[n].temperature <= top + TempDropBelowMax {
        var sp' := sp + [Span(first, n, top)];
        assert Step(m, s, n, mins) == Idle(sp');
        assert forall k | 0 <= k < |sp| :: sp'[k] == sp[k];
        assert Dropped(s, sp'[|sp|]);
      } else {
        assert Step(m, s, n, mins) == Heating(sp, first, top);
      }
  }

  lemma {:induction false} RunCloses(s: seq<Sample>, mins: map<int, int>, n: nat)
    requires n <= |s| && AllDaysKnown(s, mins)
    ensures Closes(s, Run(s, mins, n), n)
  {
    if n > 0 {
      var prev := Run(s, mins, n - 1);
      RunCloses(s, mins, n - 1);
      RunMaxima(s, mins, n - 1);
      StepCloses(s, mins, prev, n - 1);
      assert Run(s, mins, n) == Step(prev, s, n - 1, mins);
    }
  }

  /** Every reading strictly between `lo` and `hi` whose date has a minimum is below its date's threshold. */
  predicate Cold(s: seq<Sample>, mins: map<int, int>, lo: int, hi: int)
  {
    forall j | lo < j < hi && 0 <= j < |s| && Day(s[j].timestamp) in mins ::
      s[j].temperature < mins[Day(s[j].timestamp)] + TempRiseAboveMin
  }

  /** Every reading between two spans, or before the first, is below its date's threshold. */
  predicate ColdBetween(s: seq<Sample>, mins: map<int, int>, sp: seq<Span>)
  {
    forall k | 0 <= k < |sp| :: Cold(s, mins, PrevEnd(sp, k), sp[k].first)
  }

  /** The reading where the open cycle started, or `n` when idle. */
  function OpenFrom(m: Machine, n: nat): int
  {
    if m.Heating? then m.first else n
  }

  /** Every reading outside the cycles (before the open one, if any) is below its date's threshold. */
  predicate IdleBelow(s: seq<Sample>, mins: map<int, int>, m: Machine, n: nat)
  {
    ColdBetween(s, mins, m.spans) && Cold(s, mins, LastEnd(m.spans), OpenFrom(m, n))
  }

  lemma IdleStepIdleBelow(s: seq<Sample>, mins: map<int, int>, sp: seq<Span>, n: nat)
    requires n < |s| && IdleBelow(s, mins, Idle(sp), n)
    ensures IdleBelow(s, mins, Step(Idle(sp), s, n, mins), n + 1)
  {
    var m' := Step(Idle(sp), s, n, mins);
    assert m'.spans == sp;
    if m'.Idle? {
      assert Cold(s, mins, LastEnd(sp), n + 1);
    }
  }

  lemma CloseIdleBelow(s: seq<Sample>, mins: map<int, int>, sp: seq<Span>, first: nat, mx: int, top: int, n: nat)
    requires n < |s| && IdleBelow(s, mins, Heating(sp, first, mx), n)
    ensures IdleBelow(s, mins, Idle(sp + [Span(first, n, top)]), n + 1)
  {
    var sp' := sp + [Span(first, n, top)];
    assert forall k | 0 <= k < |sp| :: sp'[k] == sp[k] && PrevEnd(sp', k) == PrevEnd(sp, k);
    assert PrevEnd(sp', |sp|) == LastEnd(sp);
    assert LastEnd(sp') == n;
  }

  lemma StepIdleBelow(s: seq<Sample>, mins: map<int, int>, m: Machine, n: nat)
    requires n < |s| && IdleBelow(s, mins, m, n)
    ensures IdleBelow(s, mins, Step(m, s, n, mins), n + 1)
  {
    if Day(s[n].timestamp) !in mins {
      assert Step(m, s, n, mins) == m;
    } else {
      match m
      case Idle(sp) =>
        IdleStepIdleBelow(s, mins, sp, n);
      case Heating(sp, first, mx) =>
        var top := if s[n].temperature > mx then s[n].temperature else mx;
        if s[n].temperature <= top + TempDropBelowMax {
          assert Step(m, s, n, mins) == Idle(sp + [Span(first, n, top)]);
          CloseIdleBelow(s, mins, sp, first, mx, top, n);
        } else {
          assert Step(m, s, n, mins) == Heating(sp, first, top);
        }
    }
  }

  lemma RunIdleBelow(s: seq<Sample>, mins: map<int, int>, n: nat)
    requires n <= |s|
    ensures IdleBelow(s, mins, Run(s, mins, n), n)
  {
    forall m: Machine, k: nat | k < n && IdleBelow(s, mins, m, k)
      ensures IdleBelow(s, mins, Step(m, s, k, mins), k + 1)
    {
      StepIdleBelow(s, mins, m, k);
    }
    RunInduction(s, mins, n, (m: Machine, k: nat) => IdleBelow(s, mins, m, k));
  }

  // ---------------------------------------------------------------------
  // The spans found over all the readings
  // ---------------------------------------------------------------------

  lemma RawSpansShape(s: seq<Sample>, mins: map<int, int>)
    ensures forall k | 0 <= k < |RawSpans(s, mins)| :: RawSpans(s, mins)[k].first <= RawSpans(s, mins)[k].last < |s|
    ensures forall k | 1 <= k < |RawSpans(s, mins)| :: RawSpans(s, mins)[k - 1].last < RawSpans(s, mins)[k].first
  {
    if |s| >= 2 {
      RunStructured(s, mins, |s|);
      var m := Run(s, mins, |s|);
      if m.Heating? {
        var sp := RawSpans(s, mins);
        assert sp == m.spans + [Span(m.first, |s| - 1, m.maxTemp)];
        assert forall k | 0 <= k < |m.spans| :: sp[k] == m.spans[k];
      }
    }
  }

  /**
   * With a minimum for every reading's date: each span's maximum is the
   * highest reading it covers and no reading inside it before its end fell
   * 1 degree below the running maximum.
   */
  lemma RawSpansMaxima(s: seq<Sample>, mins: map<int, int>)
    requires AllDaysKnown(s, mins)
    ensures forall k | 0 <= k < |RawSpans(s, mins)| ::
      var sp := RawSpans(s, mins)[k];
      sp.first <= sp.last < |s| && sp.maxTemp == MaxOver(s, sp.first, sp.last + 1) && Rising(s, sp.first, sp.last)
  {
    if |s| >= 2 {
      RunMaxima(s, mins, |s|);
      RunCloses(s, mins, |s|);
      var m := Run(s, mins, |s|);
      if m.Heating? {
        var sp := RawSpans(s, mins);
        assert sp == m.spans + [Span(m.first, |s| - 1, m.maxTemp)];
        assert forall k | 0 <= k < |m.spans| :: sp[k] == m.spans[k];
        assert Rising(s, m.first, |s| - 1);
      }
    }
  }

  /**
   * Each span ends at a reading 1 degree below its maximum, except a cycle
   * still open when the readings run out, which ends at the last reading.
   */
  lemma RawSpansEnds(s: seq<Sample>, mins: map<int, int>)
    requires AllDaysKnown(s, mins)
    ensures forall k | 0 <= k < |RawSpans(s, mins)| ::
      var sp := RawSpans(s, mins)[k];
      sp.last < |s| && (s[sp.last].temperature <= sp.maxTemp + TempDropBelowMax
                         || (k == |RawSpans(s, mins)| - 1 && sp.last == |s| - 1))
  {
    if |s| >= 2 {
      RunCloses(s, mins, |s|);
      var m := Run(s, mins, |s|);
      if m.Heating? {
        var sp := RawSpans(s, mins);
        assert sp == m.spans + [Span(m.first, |s| - 1, m.maxTemp)];
        assert forall k | 0 <= k < |m.spans| :: sp[k] == m.spans[k];
      }
    }
  }

  /** Each span starts at a reading at least 5 degrees above its date's minimum. */
  lemma RawSpansStarts(s: seq<Sample>, mins: map<int, int>)
    ensures forall k | 0 <= k < |RawSpans(s, mins)| :: Hot(s, mins, RawSpans(s, mins)[k].first)
  {
    if |s| >= 2 {
      RunStarts(s, mins, |s|);
      var m := Run(s, mins, |s|);
      if m.Heating? {
        var sp := RawSpans(s, mins);
        assert sp == m.spans + [Span(m.first, |s| - 1, m.maxTemp)];
        assert forall k | 0 <= k < |m.spans| :: sp[k] == m.spans[k];
      }
    }
  }

  /** Every reading outside the spans is below its date's threshold. */
  lemma RawSpansIdle(s: seq<Sample>, mins: map<int, int>)
    ensures forall k | 0 <= k < |RawSpans(s, mins)| :: Cold(s, mins, PrevEnd(RawSpans(s, mins), k), RawSpans(s, mins)[k].first)
    ensures |s| >= 2 ==> Cold(s, mins, LastEnd(RawSpans(s, mins)), |s|)
  {
    if |s| >= 2 {
      RunIdleBelow(s, mins, |s|);
      var m := Run(s, mins, |s|);
      if m.Heating? {
        var sp := RawSpans(s, mins);
        assert sp == m.spans + [Span(m.first, |s| - 1, m.maxTemp)];
        assert forall k | 0 <= k < |m.spans| :: sp[k] == m.spans[k] && PrevEnd(sp, k) == PrevEnd(m.spans, k);
        assert PrevEnd(sp, |m.spans|) == LastEnd(m.spans);
      }
    }
  }

  /** The cycle a span describes. */
  function CycleOf(s: seq<Sample>, sp: Span): Cycle
    requires sp.first <= sp.last < |s|
  {
    var start, end := s[sp.first].timestamp, s[sp.last].timestamp;
    Cycle(start, end, sp.maxTemp, end - start)
  }

  predicate Within(s: seq<Sample>, spans: seq<Span>)
  {
    forall k | 0 <= k < |spans| :: spans[k].first <= spans[k].last < |s|
  }

  function CyclesOf(s: seq<Sample>, spans: seq<Span>): (r: seq<Cycle>)
    requires Within(s, spans)
    ensures |r| == |spans|
  {
    seq(|spans|, k requires 0 <= k < |spans| => CycleOf(s, spans[k]))
  }

  lemma CyclesOfSnoc(s: seq<Sample>, spans: seq<Span>, sp: Span)
    requires Within(s, spans) && sp.first <= sp.last < |s|
    ensures Within(s, spans + [sp])
    ensures CyclesOf(s, spans + [sp]) == CyclesOf(s, spans) + [CycleOf(s, sp)]
  {
    assert forall k | 0 <= k < |spans| :: (spans + [sp])[k] == spans[k];
  }

  /** `_detect_raw_cycles` as a value: the cycles of the spans the machine finds. */
  function RawCycles(s: seq<Sample>, mins: map<int, int>): (r: seq<Cycle>)
    ensures |r| == |RawSpans(s, mins)|
    ensures forall k | 0 <= k < |r| ::
      RawSpans(s, mins)[k].first <= RawSpans(s, mins)[k].last < |s|
      && r[k].start == s[RawSpans(s, mins)[k].first].timestamp
      && r[k].end == s[RawSpans(s, mins)[k].last].timestamp
      && r[k].maxTemp == RawSpans(s, mins)[k].maxTemp
  {
    RawSpansShape(s, mins);
    CyclesOf(s, RawSpans(s, mins))
  }

  /**
   * Over time-sorted readings the cycles run forward in time and follow one
   * another, each lasting from its start to its end.
   */
  lemma RawCyclesOrdered(s: seq<Sample>, mins: map<int, int>)
    requires Sorting.SortedBy(s, ByTime)
    ensures forall k | 0 <= k < |RawCycles(s, mins)| ::
      RawCycles(s, mins)[k].start <= RawCycles(s, mins)[k].end
      && RawCycles(s, mins)[k].durationSeconds == RawCycles(s, mins)[k].end - RawCycles(s, mins)[k].start
    ensures forall k | 1 <= k < |RawCycles(s, mins)| :: RawCycles(s, mins)[k - 1].end <= RawCycles(s, mins)[k].start
  {
    RawSpansShape(s, mins);
    var sp := RawSpans(s, mins);
    var r := RawCycles(s, mins);
    forall k | 0 <= k < |r|
      ensures r[k].start <= r[k].end
    {
      assert ByTime(s[sp[k].first]) <= ByTime(s[sp[k].last]);
    }
    forall k | 1 <= k < |r|
      ensures r[k - 1].end <= r[k].start
    {
      assert ByTime(s[sp[k - 1].last]) <= ByTime(s[sp[k].first]);
    }
  }

  /** The readings' loop of `_detect_raw_cycles`, keeping the open cycle's start time and running maximum. */
  method DetectRawCycles(s: seq<Sample>, mins: map<int, int>) returns (cycles: seq<Cycle>)
    ensures cycles == RawCycles(s, mins)
  {
    if |s| < 2 {
      return [];
    }
    cycles := [];
    var inCycle := false;
    var cycleStart := 0;
    var cycleMax := 0;
    ghost var spans: seq<Span> := [];
    ghost var first: nat := 0;
    for i := 0 to |s|
      invariant Run(s, mins, i) == if inCycle then Heating(spans, first, cycleMax) else Idle(spans)
      invariant inCycle ==> first < i && cycleStart == s[first].timestamp
      invariant Within(s, spans) && cycles == CyclesOf(s, spans)
    {
      var x := s[i];
      var day := Day(x.timestamp);
      if day in mins {
        if !inCycle {
          if x.temperature >= mins[day] + TempRiseAboveMin {
            cycleStart, cycleMax, inCycle := x.timestamp, x.temperature, true;
            first := i;
          }
        } else {
          if x.temperature > cycleMax {
            cycleMax := x.temperature;
          }
          if x.temperature <= cycleMax + TempDropBelowMax {
            CyclesOfSnoc(s, spans, Span(first, i, cycleMax));
            cycles := cycles + [Cycle(cycleStart, x.timestamp, cycleMax, x.timestamp - cycleStart)];
            spans := spans + [Span(first, i, cycleMax)];
            inCycle := false;
          }
        }
      }
    }
    if inCycle {
      var end := s[|s| - 1].timestamp;
      CyclesOfSnoc(s, spans, Span(first, |s| - 1, cycleMax));
      cycles := cycles + [Cycle(cycleStart, end, cycleMax, end - cycleStart)];
      spans := spans + [Span(first, |s| - 1, cycleMax)];
    }
    assert spans == RawSpans(s, mins);
  }

  // ---------------------------------------------------------------------
  // Merging cycles separated by short gaps (`_merge_cycles_with_gaps`)
  // ---------------------------------------------------------------------

  /** `cur` extended to the end of `next`, keeping the higher maximum. */
  function Absorb(cur: Cycle, next: Cycle): (r: Cycle)
    ensures r.start == cur.start && r.end == next.end && r.durationSeconds == r.end - r.start
    ensures r.maxTemp >= cur.maxTemp && r.maxTemp >= next.maxTemp
    ensures r.maxTemp == cur.maxTemp || r.maxTemp == next.maxTemp
  {
    Cycle(cur.start, next.end, if next.maxTemp > cur.maxTemp then next.maxTemp else cur.maxTemp, next.end - cur.start)
  }

  /** The next raw cycle joins the current one when the gap is at most 15 minutes. */
  function MergeStep(acc: seq<Cycle>, c: Cycle): seq<Cycle>
    requires |acc| > 0
  {
    var cur := acc[|acc| - 1];
    if c.start - cur.end <= MinGapSeconds then acc[..|acc| - 1] + [Absorb(cur, c)] else acc + [c]
  }

  function Merged(cs: seq<Cycle>): (r: seq<Cycle>)
    ensures |r| == 0 <==> |cs| == 0
    ensures |r| <= |cs|
  {
    if |cs| <= 1 then cs else MergeStep(Merged(cs[..|cs| - 1]), cs[|cs| - 1])
  }

  /** Consecutive cycles more than 15 minutes apart. */
  predicate Apart(cs: seq<Cycle>)
  {
    forall k | 1 <= k < |cs| :: cs[k].start - cs[k - 1].end > MinGapSeconds
  }

  /** The number of gaps longer than 15 minutes between consecutive cycles. */
  function LongGaps(cs: seq<Cycle>): nat
  {
    if |cs| <= 1 then 0
    else LongGaps(cs[..|cs| - 1]) + if cs[|cs| - 1].start - cs[|cs| - 2].end > MinGapSeconds then 1 else 0
  }

  /** The merged list starts where the first cycle starts and ends where the last one ends. */
  lemma {:induction false} MergedEnds(cs: seq<Cycle>)
    requires |cs| > 0
    ensures Merged(cs)[0].start == cs[0].start
    ensures Merged(cs)[|Merged(cs)| - 1].end == cs[|cs| - 1].end
  {
    if |cs| > 1 {
      var front := cs[..|cs| - 1];
      MergedEnds(front);
      assert front[0] == cs[0];
    }
  }

  /** One merged cycle per run of cycles joined by gaps of at most 15 minutes. */
  lemma {:induction false} MergedCount(cs: seq<Cycle>)
    requires |cs| > 0
    ensures |Merged(cs)| == 1 + LongGaps(cs)
  {
    if |cs| > 1 {
      var front := cs[..|cs| - 1];
      MergedCount(front);
      MergedEnds(front);
      assert front[|front| - 1] == cs[|cs| - 2];
    }
  }

  /** After merging, every gap between consecutive cycles is longer than 15 minutes. */
  lemma {:induction false} MergedApart(cs: seq<Cycle>)
    ensures Apart(Merged(cs))
  {
    if |cs| > 1 {
      var front := cs[..|cs| - 1];
      MergedApart(front);
      var acc := Merged(front);
      var r := Merged(cs);
      assert forall k | 0 <= k < |acc| - 1 :: r[k] == acc[k];
    }
  }

  /** Cycles already more than 15 minutes apart are left as they are. */
  lemma {:induction false} ApartUnchanged(cs: seq<Cycle>)
    requires Apart(cs)
    ensures Merged(cs) == cs
  {
    if |cs| > 1 {
      var front := cs[..|cs| - 1];
      assert Apart(front);
      ApartUnchanged(front);
      assert front + [cs[|cs| - 1]] == cs;
    }
  }

  lemma MergedIdempotent(cs: seq<Cycle>)
    ensures Merged(Merged(cs)) == Merged(cs)
  {
    MergedApart(cs);
    ApartUnchanged(Merged(cs));
  }

  /** Each cycle runs forward and ends no later than the next one starts; its duration is its span. */
  predicate Chronological(cs: seq<Cycle>)
  {
    (forall k | 0 <= k < |cs| :: cs[k].start <= cs[k].end && cs[k].durationSeconds == cs[k].end - cs[k].start)
    && (forall k | 1 <= k < |cs| :: cs[k - 1].end <= cs[k].start)
  }

  lemma MergeStepChronological(acc: seq<Cycle>, c: Cycle)
    requires |acc| > 0 && Chronological(acc)
    requires acc[|acc| - 1].end <= c.start <= c.end && c.durationSeconds == c.end - c.start
    ensures Chronological(MergeStep(acc, c))
  {
    var r := MergeStep(acc, c);
    assert forall k | 0 <= k < |acc| - 1 :: r[k] == acc[k];
  }

  lemma {:induction false} MergedChronological(cs: seq<Cycle>)
    requires Chronological(cs)
    ensures Chronological(Merged(cs))
  {
    if |cs| > 1 {
      var front := cs[..|cs| - 1];
      assert Chronological(front);
      MergedChronological(front);
      MergedEnds(front);
      MergeStepChronological(Merged(front), cs[|cs| - 1]);
    }
  }

  lemma MergedSnoc(cs: seq<Cycle>, i: nat)
    requires 1 <= i < |cs|
    ensures Merged(cs[..i + 1]) == MergeStep(Merged(cs[..i]), cs[i])
  {
    assert cs[..i + 1][..i] == cs[..i];
  }

  /** Merging into finished cycles followed by the current one. */
  lemma MergeStepLast(done: seq<Cycle>, cur: Cycle, c: Cycle)
    ensures c.start - cur.end <= MinGapSeconds ==> MergeStep(done + [cur], c) == done + [Absorb(cur, c)]
    ensures c.start - cur.end > MinGapSeconds ==> MergeStep(done + [cur], c) == done + [cur] + [c]
  {
    assert (done + [cur])[..|done|] == done;
  }

  /** The loop of `_merge_cycles_with_gaps`, holding the cycle being extended apart from the finished ones. */
  method MergeCycles(raw: seq<Cycle>) returns (merged: seq<Cycle>)
    ensures merged == Merged(raw)
  {
    if |raw| == 0 {
      return [];
    }
    merged := [];
    var current := raw[0];
    for i := 1 to |raw|
      invariant merged + [current] == Merged(raw[..i])
    {
      var next := raw[i];
      MergedSnoc(raw, i);
      MergeStepLast(merged, current, next);
      if next.start - current.end <= MinGapSeconds {
        current := Absorb(current, next);
      } else {
        merged := merged + [current];
        current := next;
      }
    }
    merged := merged + [current];
    assert raw[..|raw|] == raw;
  }

  // ---------------------------------------------------------------------
  // The reported cycles (`detect_heating_cycles`)
  // ---------------------------------------------------------------------

  /** A cycle as reported: the duration in whole minutes. */
  datatype Reported = Reported(start: int, end: int, maxTemp: int, durationMinutes: int)

  /** Seconds to minutes rounded to the nearest whole minute, halves to even, as the `.0f` format does. */
  function RoundMinutes(seconds: int): (m: int)
    ensures -30 <= seconds - 60 * m <= 30
    ensures seconds % 60 == 0 ==> m == seconds / 60
  {
    var q, r := seconds / 60, seconds % 60;
    if r < 30 then q else if r > 30 then q + 1 else if q % 2 == 0 then q else q + 1
  }

  function Report(cs: seq<Cycle>): (r: seq<Reported>)
    ensures |r| == |cs|
    ensures forall k | 0 <= k < |cs| ::
      r[k].start == cs[k].start && r[k].end == cs[k].end && r[k].maxTemp == cs[k].maxTemp
      && r[k].durationMinutes == RoundMinutes(cs[k].durationSeconds)
  {
    seq(|cs|, k requires 0 <= k < |cs| =>
      Reported(cs[k].start, cs[k].end, cs[k].maxTemp, RoundMinutes(cs[k].durationSeconds)))
  }

  /** A device's cycles: raw detection over its sorted readings, then merging. */
  function DetectHeatingCycles(devices: map<string, seq<Sample>>, name: string): Result<seq<Reported>, HeatingError>
  {
    match GetDeviceData(devices, name)
    case Err(e) => Err(e)
    case Ok(s) => if |s| == 0 then Ok([]) else Ok(Report(Merged(RawCycles(s, DailyMinimums(s)))))
  }

  /**
   * An unknown device is an error, a device without readings has no cycles,
   * and reported cycles run forward, more than 15 minutes apart.
   */
  lemma DetectHeatingCyclesProperties(devices: map<string, seq<Sample>>, name: string)
    ensures DetectHeatingCycles(devices, name).Err? <==> name !in devices
    ensures name in devices && |devices[name]| < 2 ==> DetectHeatingCycles(devices, name) == Ok([])
    ensures DetectHeatingCycles(devices, name).Ok? ==>
      var r := DetectHeatingCycles(devices, name).value;
      (forall k | 0 <= k < |r| :: r[k].start <= r[k].end)
      && (forall k | 1 <= k < |r| :: r[k].start - r[k - 1].end > MinGapSeconds)
  {
    var d := GetDeviceData(devices, name);
    if d.Ok? {
      var s := d.value;
      assert |s| == |devices[name]| by {
        assert |multiset(s)| == |multiset(devices[name])|;
      }
      if |s| > 0 {
        var raw := RawCycles(s, DailyMinimums(s));
        if |s| < 2 {
          assert Merged(raw) == [];
        }
        ReportedOrdered(s, raw);
      }
    }
  }

  lemma ReportedOrdered(s: seq<Sample>, raw: seq<Cycle>)
    requires Sorting.SortedBy(s, ByTime) && raw == RawCycles(s, DailyMinimums(s))
    ensures forall k | 0 <= k < |Report(Merged(raw))| :: Report(Merged(raw))[k].start <= Report(Merged(raw))[k].end
    ensures forall k | 1 <= k < |Report(Merged(raw))| ::
      Report(Merged(raw))[k].start - Report(Merged(raw))[k - 1].end > MinGapSeconds
  {
    RawCyclesOrdered(s, DailyMinimums(s));
    assert Chronological(raw);
    MergedChronological(raw);
    MergedApart(raw);
  }

  // ---------------------------------------------------------------------
  // Per-day tables, each cycle counted on the date it started
  // ---------------------------------------------------------------------

  function StartDay(c: Reported): int { Day(c.start) }

  /** Weights summed per day: one per cycle, or its minutes. */
  function One(c: Reported): int { 1 }

  function Minutes(c: Reported): int { c.durationMinutes }

  /** The total weight of the cycles that started on day `d`. */
  function TallyOn(cs: seq<Reported>, d: int, w: Reported -> int): int
  {
    if |cs| == 0 then 0
    else TallyOn(cs[..|cs| - 1], d, w) + if StartDay(cs[|cs| - 1]) == d then w(cs[|cs| - 1]) else 0
  }

  function Total(cs: seq<Reported>, w: Reported -> int): int
  {
    if |cs| == 0 then 0 else Total(cs[..|cs| - 1], w) + w(cs[|cs| - 1])
  }

  function StartDays(cs: seq<Reported>): set<int>
  {
    set k | 0 <= k < |cs| :: StartDay(cs[k])
  }

  lemma {:induction false} TotalOne(cs: seq<Reported>)
    ensures Total(cs, One) == |cs|
  {
    if |cs| > 0 { TotalOne(cs[..|cs| - 1]); }
  }

  /** A day has cycles exactly when some cycle started on it. */
  lemma {:induction false} CountPositive(cs: seq<Reported>, d: int)
    ensures d in StartDays(cs) <==> TallyOn(cs, d, One) > 0
    ensures TallyOn(cs, d, One) >= 0
  {
    if |cs| > 0 {
      var front := cs[..|cs| - 1];
      CountPositive(front, d);
      assert forall k | 0 <= k < |front| :: front[k] == cs[k];
      if d in StartDays(cs) && d !in StartDays(front) {
        assert StartDay(cs[|cs| - 1]) == d;
      }
    }
  }

  lemma StartDaysSnoc(cs: seq<Reported>, i: nat)
    requires i < |cs|
    ensures StartDays(cs[..i + 1]) == StartDays(cs[..i]) + {StartDay(cs[i])}
  {
    var a, b := cs[..i + 1], cs[..i];
    assert forall k | 0 <= k < i :: a[k] == b[k];
    assert a[i] == cs[i];
  }

  /** `_calculate_cycles_per_day`: the number of cycles started on each day that has any. */
  method CyclesPerDay(cs: seq<Reported>) returns (counts: map<int, int>)
    ensures counts.Keys == StartDays(cs)
    ensures forall d | d in counts :: counts[d] == TallyOn(cs, d, One)
  {
    counts := map[];
    for i := 0 to |cs|
      invariant counts.Keys == StartDays(cs[..i])
      invariant forall d | d in counts :: counts[d] == TallyOn(cs[..i], d, One)
    {
      StartDaysSnoc(cs, i);
      assert cs[..i + 1][..i] == cs[..i];
      var key := StartDay(cs[i]);
      counts := counts[key := (if key in counts then counts[key] else 0) + 1];
      CountPositive(cs[..i], key);
    }
    assert cs[..|cs|] == cs;
  }

  /** `_calculate_duration_per_day`: the minutes of the cycles started on each day that has any. */
  method DurationPerDay(cs: seq<Reported>) returns (minutes: map<int, int>)
    ensures minutes.Keys == StartDays(cs)
    ensures forall d | d in minutes :: minutes[d] == TallyOn(cs, d, Minutes)
  {
    minutes := map[];
    for i := 0 to |cs|
      invariant minutes.Keys == StartDays(cs[..i])
      invariant forall d | d in minutes :: minutes[d] == TallyOn(cs[..i], d, Minutes)
    {
      StartDaysSnoc(cs, i);
      assert cs[..i + 1][..i] == cs[..i];
      var key := StartDay(cs[i]);
      if key !in minutes {
        CountPositive(cs[..i], key);
        TallyAbsent(cs[..i], key, Minutes);
      }
      minutes := minutes[key := (if key in minutes then minutes[key] else 0) + cs[i].durationMinutes];
    }
    assert cs[..|cs|] == cs;
  }

  /** A day no cycle started on has nothing tallied. */
  lemma {:induction false} TallyAbsent(cs: seq<Reported>, d: int, w: Reported -> int)
    requires d !in StartDays(cs)
    ensures TallyOn(cs, d, w) == 0
  {
    if |cs| > 0 {
      var front := cs[..|cs| - 1];
      assert forall k | 0 <= k < |front| :: front[k] == cs[k];
      assert StartDays(front) <= StartDays(cs);
      assert StartDay(cs[|cs| - 1]) in StartDays(cs);
      TallyAbsent(front, d, w);
    }
  }

  datatype DayValue = DayValue(day: int, value: int)

  function StartDaySeq(cs: seq<Reported>): (r: seq<int>)
    ensures |r| == |cs| && forall k | 0 <= k < |cs| :: r[k] == StartDay(cs[k])
  {
    seq(|cs|, k requires 0 <= k < |cs| => StartDay(cs[k]))
  }

  /** `_get_full_date_range`: every day from the first cycle's start day to the last one's. */
  function FullDateRange(cs: seq<Reported>): (r: seq<int>)
    ensures |cs| == 0 ==> r == []
    ensures |cs| > 0 ==> |r| > 0 && r[0] == MinOf(StartDaySeq(cs)) && r[|r| - 1] == MaxOf(StartDaySeq(cs))
    ensures forall i | 0 <= i < |r| :: r[i] == r[0] + i
    ensures forall k | 0 <= k < |cs| :: StartDay(cs[k]) in r
  {
    if |cs| == 0 then []
    else
      var days := StartDaySeq(cs);
      var lo, hi := MinOf(days), MaxOf(days);
      var r := seq(hi - lo + 1, i requires 0 <= i <= hi - lo => lo + i);
      assert forall k | 0 <= k < |cs| :: r[days[k] - lo] == StartDay(cs[k]);
      r
  }

  /** The tallies of the days `lo .. lo + n - 1`. */
  function Table(cs: seq<Reported>, lo: int, n: nat, w: Reported -> int): (t: seq<DayValue>)
    ensures |t| == n
    ensures forall i | 0 <= i < n :: t[i].day == lo + i && t[i].value == TallyOn(cs, lo + i, w)
  {
    seq(n, i requires 0 <= i < n => DayValue(lo + i, TallyOn(cs, lo + i, w)))
  }

  function SumValues(t: seq<DayValue>): int
  {
    if |t| == 0 then 0 else SumValues(t[..|t| - 1]) + t[|t| - 1].value
  }

  /** One more cycle adds its weight to the table's sum exactly when its day is in the table. */
  lemma {:induction false} TableSnoc(cs: seq<Reported>, c: Reported, lo: int, n: nat, w: Reported -> int)
    ensures SumValues(Table(cs + [c], lo, n, w))
         == SumValues(Table(cs, lo, n, w)) + if lo <= StartDay(c) < lo + n then w(c) else 0
  {
    if n > 0 {
      TableSnoc(cs, c, lo, n - 1, w);
      TablePrefix(cs + [c], lo, n, w);
      TablePrefix(cs, lo, n, w);
      TallyOnSnoc(cs, c, lo + n - 1, w);
    }
  }

  lemma TablePrefix(cs: seq<Reported>, lo: int, n: nat, w: Reported -> int)
    requires n > 0
    ensures SumValues(Table(cs, lo, n, w)) == SumValues(Table(cs, lo, n - 1, w)) + TallyOn(cs, lo + n - 1, w)
  {
    assert Table(cs, lo, n, w)[..n - 1] == Table(cs, lo, n - 1, w);
  }

  lemma TallyOnSnoc(cs: seq<Reported>, c: Reported, d: int, w: Reported -> int)
    ensures TallyOn(cs + [c], d, w) == TallyOn(cs, d, w) + if StartDay(c) == d then w(c) else 0
  {
    assert (cs + [c])[..|cs|] == cs;
  }

  /** A table covering every cycle's start day sums to the total weight. */
  lemma {:induction false} TableTotal(cs: seq<Reported>, lo: int, n: nat, w: Reported -> int)
    requires forall k | 0 <= k < |cs| :: lo <= StartDay(cs[k]) < lo + n
    ensures SumValues(Table(cs, lo, n, w)) == Total(cs, w)
  {
    if |cs| == 0 {
      TableEmpty(lo, n, w);
    } else {
      var front := cs[..|cs| - 1];
      TableTotal(front, lo, n, w);
      TableSnoc(front, cs[|cs| - 1], lo, n, w);
      assert front + [cs[|cs| - 1]] == cs;
    }
  }

  lemma {:induction false} TableEmpty(lo: int, n: nat, w: Reported -> int)
    ensures SumValues(Table([], lo, n, w)) == 0
  {
    if n > 0 {
      TableEmpty(lo, n - 1, w);
      TablePrefix([], lo, n, w);
    }
  }

  /** `_calculate_*_per_day_complete`: every day of the full range, zero where nothing started. */
  function CompleteTable(cs: seq<Reported>, w: Reported -> int): (t: seq<DayValue>)
    ensures |t| == |FullDateRange(cs)|
    ensures forall i | 0 <= i < |t| :: t[i].day == FullDateRange(cs)[i] && t[i].value == TallyOn(cs, t[i].day, w)
  {
    var r := FullDateRange(cs);
    if |r| == 0 then []
    else
      Table(cs, r[0], |r|, w)
  }

  /** The complete per-day table adds up to every cycle: their count, or their minutes. */
  lemma CompleteTableTotal(cs: seq<Reported>, w: Reported -> int)
    ensures SumValues(CompleteTable(cs, w)) == Total(cs, w)
    ensures SumValues(CompleteTable(cs, One)) == |cs|
  {
    var r := FullDateRange(cs);
    if |r| > 0 {
      TableTotal(cs, r[0], |r|, w);
      TableTotal(cs, r[0], |r|, One);
    }
    TotalOne(cs);
  }
}
