// Statistics over the JSON temperature database: the active-interval report
// (STAT001), the cross-device synchroniser and the guards of the ventilation
// analysis (STAT002). Timestamps are whole seconds of naive wall-clock time,
// temperatures are integers (tenths of a degree).

module TemperatureStatistics {
  import opened Text
  import Sorting

  /** A stored record as far as these reports read it; `None` is a missing or unparseable field. */
  datatype Record = Record(timestamp: Option<int>, temperature: Option<int>)

  /** One STAT001 interval: first and last timestamp, the records inside it and the expected count. */
  datatype ActiveInterval = ActiveInterval(start: int, end: int, recordCount: nat, expectedRecords: int)

  datatype StatError = DivisionByZero

  predicate Sorted(ts: seq<int>)
  {
    forall i, j | 0 <= i < j < |ts| :: ts[i] <= ts[j]
  }

  // ---------------------------------------------------------------------
  // Record counting (`_count_records_in_interval`)
  // ---------------------------------------------------------------------

  /** The number of timestamps `t` with `start <= t <= end`. */
  function CountInRange(ts: seq<int>, start: int, end: int): (n: nat)
    ensures n <= |ts|
  {
    if |ts| == 0 then 0
    else (if start <= ts[0] <= end then 1 else 0) + CountInRange(ts[1..], start, end)
  }

  lemma {:induction false} CountInRangeConcat(a: seq<int>, b: seq<int>, start: int, end: int)
    ensures CountInRange(a + b, start, end) == CountInRange(a, start, end) + CountInRange(b, start, end)
  {
    if |a| > 0 {
      assert (a + b)[1..] == a[1..] + b;
      CountInRangeConcat(a[1..], b, start, end);
    } else {
      assert a + b == b;
    }
  }

  lemma {:induction false} CountInRangeAll(ts: seq<int>, start: int, end: int)
    requires forall i | 0 <= i < |ts| :: start <= ts[i] <= end
    ensures CountInRange(ts, start, end) == |ts|
  {
    if |ts| > 0 { CountInRangeAll(ts[1..], start, end); }
  }

  lemma {:induction false} CountInRangeNone(ts: seq<int>, start: int, end: int)
    requires forall i | 0 <= i < |ts| :: ts[i] < start || end < ts[i]
    ensures CountInRange(ts, start, end) == 0
  {
    if |ts| > 0 { CountInRangeNone(ts[1..], start, end); }
  }

  lemma CountInRangeSplit(ts: seq<int>, lo: nat, hi: nat, start: int, end: int)
    requires lo <= hi <= |ts|
    ensures CountInRange(ts, start, end)
         == CountInRange(ts[..lo], start, end) + CountInRange(ts[lo..hi], start, end) + CountInRange(ts[hi..], start, end)
  {
    assert ts[..hi] == ts[..lo] + ts[lo..hi];
    assert ts == ts[..hi] + ts[hi..];
    CountInRangeConcat(ts[..lo], ts[lo..hi], start, end);
    CountInRangeConcat(ts[..hi], ts[hi..], start, end);
  }

  /**
   * In sorted data, a block of positions whose neighbours outside it are
   * strictly smaller or larger is counted exactly by its first and last value.
   */
  lemma CountBlock(ts: seq<int>, lo: nat, hi: nat)
    requires Sorted(ts) && lo < hi <= |ts|
    requires lo > 0 ==> ts[lo - 1] < ts[lo]
    requires hi < |ts| ==> ts[hi - 1] < ts[hi]
    ensures CountInRange(ts, ts[lo], ts[hi - 1]) == hi - lo
  {
    CountInRangeSplit(ts, lo, hi, ts[lo], ts[hi - 1]);
    CountBlockBefore(ts, lo, hi);
    CountBlockInside(ts, lo, hi);
    CountBlockAfter(ts, lo, hi);
  }

  lemma CountBlockBefore(ts: seq<int>, lo: nat, hi: nat)
    requires Sorted(ts) && lo < hi <= |ts|
    requires lo > 0 ==> ts[lo - 1] < ts[lo]
    ensures CountInRange(ts[..lo], ts[lo], ts[hi - 1]) == 0
  {
    var a := ts[..lo];
    forall i | 0 <= i < |a| ensures a[i] < ts[lo] || ts[hi - 1] < a[i] {
      assert a[i] == ts[i] <= ts[lo - 1];
    }
    CountInRangeNone(a, ts[lo], ts[hi - 1]);
  }

  lemma CountBlockInside(ts: seq<int>, lo: nat, hi: nat)
    requires Sorted(ts) && lo < hi <= |ts|
    ensures CountInRange(ts[lo..hi], ts[lo], ts[hi - 1]) == hi - lo
  {
    var b := ts[lo..hi];
    forall i | 0 <= i < |b| ensures ts[lo] <= b[i] <= ts[hi - 1] {
      assert b[i] == ts[lo + i];
    }
    CountInRangeAll(b, ts[lo], ts[hi - 1]);
  }

  lemma CountBlockAfter(ts: seq<int>, lo: nat, hi: nat)
    requires Sorted(ts) && lo < hi <= |ts|
    requires hi < |ts| ==> ts[hi - 1] < ts[hi]
    ensures CountInRange(ts[hi..], ts[lo], ts[hi - 1]) == 0
  {
    var c := ts[hi..];
    forall i | 0 <= i < |c| ensures c[i] < ts[lo] || ts[hi - 1] < c[i] {
      assert c[i] == ts[hi + i] >= ts[hi];
    }
    CountInRangeNone(c, ts[lo], ts[hi - 1]);
  }

  // ---------------------------------------------------------------------
  // Interval segmentation (STAT001)
  // ---------------------------------------------------------------------

  /** `int(duration_s / (expected_interval_minutes * 60)) + 1`. */
  function ExpectedRecords(durationSeconds: int, intervalMinutes: int): int
    requires intervalMinutes != 0
  {
    TruncDiv(durationSeconds, intervalMinutes * 60) + 1
  }

  lemma ExpectedRecordsAtLeastOne(durationSeconds: int, intervalMinutes: int)
    requires durationSeconds >= 0 && intervalMinutes > 0
    ensures ExpectedRecords(durationSeconds, intervalMinutes) >= 1
    ensures ExpectedRecords(durationSeconds, intervalMinutes) == durationSeconds / (intervalMinutes * 60) + 1
  {
    var d := intervalMinutes * 60;
    assert TruncDiv(durationSeconds, d) == durationSeconds / d;
    DivNonNegative(durationSeconds, d);
  }

  lemma DivNonNegative(a: int, d: int)
    requires a >= 0 && d > 0
    ensures a / d >= 0
  {
  }

  /** The divisor of the completeness percentage, `max(1, expected_records)`. */
  function CompletenessDivisor(iv: ActiveInterval): (d: int)
    ensures d >= 1 && d >= iv.expectedRecords
    ensures iv.expectedRecords >= 1 ==> d == iv.expectedRecords
  {
    if iv.expectedRecords >= 1 then iv.expectedRecords else 1
  }

  /** The positions `i` in `1 .. upTo - 1` where the gap from the previous timestamp exceeds `maxGap`. */
  function BreaksTo(ts: seq<int>, maxGap: int, upTo: nat): seq<nat>
    requires upTo <= |ts|
  {
    if upTo <= 1 then []
    else BreaksTo(ts, maxGap, upTo - 1) + (if ts[upTo - 1] - ts[upTo - 2] > maxGap then [upTo - 1] else [])
  }

  predicate StrictlyIncreasing(b: seq<nat>)
  {
    forall i, j | 0 <= i < j < |b| :: b[i] < b[j]
  }

  lemma {:induction false} BreaksToProperties(ts: seq<int>, maxGap: int, upTo: nat)
    requires upTo <= |ts|
    ensures var p := BreaksTo(ts, maxGap, upTo);
      StrictlyIncreasing(p)
      && (forall k | 0 <= k < |p| :: 1 <= p[k] < upTo && ts[p[k]] - ts[p[k] - 1] > maxGap)
      && (forall i | 1 <= i < upTo && ts[i] - ts[i - 1] > maxGap :: i in p)
  {
    BreaksToSound(ts, maxGap, upTo);
    BreaksToComplete(ts, maxGap, upTo);
  }

  lemma {:induction false} BreaksToSound(ts: seq<int>, maxGap: int, upTo: nat)
    requires upTo <= |ts|
    ensures var p := BreaksTo(ts, maxGap, upTo);
      StrictlyIncreasing(p) && forall k | 0 <= k < |p| :: 1 <= p[k] < upTo && ts[p[k]] - ts[p[k] - 1] > maxGap
  {
    if upTo > 1 {
      BreaksToSound(ts, maxGap, upTo - 1);
      var p := BreaksTo(ts, maxGap, upTo - 1);
      if ts[upTo - 1] - ts[upTo - 2] > maxGap {
        var q := p + [upTo - 1];
        assert BreaksTo(ts, maxGap, upTo) == q;
        forall i, j | 0 <= i < j < |q| ensures q[i] < q[j] {
          if j < |p| { assert q[j] == p[j]; }
        }
      } else {
        assert BreaksTo(ts, maxGap, upTo) == p;
      }
    }
  }

  lemma {:induction false} BreaksToComplete(ts: seq<int>, maxGap: int, upTo: nat)
    requires upTo <= |ts|
    ensures forall i | 1 <= i < upTo && ts[i] - ts[i - 1] > maxGap :: i in BreaksTo(ts, maxGap, upTo)
  {
    if upTo > 1 {
      BreaksToComplete(ts, maxGap, upTo - 1);
      var p := BreaksTo(ts, maxGap, upTo - 1);
      if ts[upTo - 1] - ts[upTo - 2] > maxGap {
        assert BreaksTo(ts, maxGap, upTo) == p + [upTo - 1];
      } else {
        assert BreaksTo(ts, maxGap, upTo) == p;
      }
    }
  }

  /** The boundaries fixed once the first `i` timestamps have been walked. */
  function BoundsTo(ts: seq<int>, maxGap: int, i: nat): seq<nat>
    requires i <= |ts|
  {
    [0] + BreaksTo(ts, maxGap, i)
  }

  /** Putting a smaller value in front keeps boundaries valid. */
  lemma PrependValid(x: nat, br: seq<nat>, n: nat)
    requires StrictlyIncreasing(br) && x <= n
    requires forall k | 0 <= k < |br| :: x < br[k] <= n
    ensures ValidBounds([x] + br, n)
  {
    var p := [x] + br;
    forall k, l | 0 <= k < l < |p| ensures p[k] < p[l] {
      assert p[l] == br[l - 1];
      if 0 < k { assert p[k] == br[k - 1]; }
    }
  }

  lemma BoundsToValid(ts: seq<int>, maxGap: int, i: nat)
    requires 1 <= i <= |ts|
    ensures ValidBounds(BoundsTo(ts, maxGap, i), |ts|)
    ensures var p := BoundsTo(ts, maxGap, i); p[|p| - 1] < i
  {
    BreaksToProperties(ts, maxGap, i);
    var br := BreaksTo(ts, maxGap, i);
    PrependValid(0, br, |ts|);
    if |br| > 0 { assert BoundsTo(ts, maxGap, i)[|br|] == br[|br| - 1]; }
  }

  lemma BoundsToStep(ts: seq<int>, maxGap: int, i: nat)
    requires 1 <= i < |ts|
    ensures BoundsTo(ts, maxGap, i + 1)
         == BoundsTo(ts, maxGap, i) + (if ts[i] - ts[i - 1] > maxGap then [i] else [])
  {
    var e: seq<nat> := if ts[i] - ts[i - 1] > maxGap then [i] else [];
    assert BreaksTo(ts, maxGap, i + 1) == BreaksTo(ts, maxGap, i) + e;
    assert [0] + (BreaksTo(ts, maxGap, i) + e) == [0] + BreaksTo(ts, maxGap, i) + e;
  }

  /** Putting a larger value at the end keeps boundaries valid. */
  lemma AppendValid(p: seq<nat>, x: nat, n: nat)
    requires ValidBounds(p, n) && |p| >= 1 && p[|p| - 1] < x <= n
    ensures ValidBounds(p + [x], n)
  {
    var q := p + [x];
    forall k, l | 0 <= k < l < |q| ensures q[k] < q[l] {
      assert q[k] == p[k];
      if l < |p| { assert q[l] == p[l]; } else { assert p[k] <= p[|p| - 1]; }
    }
  }

  /** Interval boundaries: 0, every break, and the length. */
  function Bounds(ts: seq<int>, maxGap: int): seq<nat>
  {
    BoundsTo(ts, maxGap, |ts|) + [|ts|]
  }

  lemma BoundsValid(ts: seq<int>, maxGap: int)
    requires |ts| > 0
    ensures var b := Bounds(ts, maxGap);
      |b| >= 2 && b[0] == 0 && b[|b| - 1] == |ts| && ValidBounds(b, |ts|)
  {
    BoundsToValid(ts, maxGap, |ts|);
    AppendValid(BoundsTo(ts, maxGap, |ts|), |ts|, |ts|);
  }

  /** Every inner boundary sits right after a gap wider than `maxGap`. */
  lemma BoundsAtGaps(ts: seq<int>, maxGap: int, k: nat)
    requires |ts| > 0 && 0 < k < |Bounds(ts, maxGap)| - 1
    ensures var b := Bounds(ts, maxGap); 1 <= b[k] < |ts| && ts[b[k]] - ts[b[k] - 1] > maxGap
  {
    BreaksToProperties(ts, maxGap, |ts|);
    assert Bounds(ts, maxGap)[k] == BreaksTo(ts, maxGap, |ts|)[k - 1];
  }

  /** Every gap wider than `maxGap` is a boundary. */
  lemma GapsAtBounds(ts: seq<int>, maxGap: int, i: nat)
    requires 1 <= i < |ts| && ts[i] - ts[i - 1] > maxGap
    ensures i in Bounds(ts, maxGap)
  {
    BreaksToProperties(ts, maxGap, |ts|);
    var br := BreaksTo(ts, maxGap, |ts|);
    assert i in br;
    var k :| 0 <= k < |br| && br[k] == i;
    assert Bounds(ts, maxGap)[k + 1] == i;
  }

  /** The interval covering positions `lo .. hi - 1` of the sorted timestamps. */
  function MakeInterval(ts: seq<int>, lo: nat, hi: nat, intervalMinutes: int): ActiveInterval
    requires lo < hi <= |ts| && intervalMinutes != 0
  {
    ActiveInterval(ts[lo], ts[hi - 1], CountInRange(ts, ts[lo], ts[hi - 1]),
                   ExpectedRecords(ts[hi - 1] - ts[lo], intervalMinutes))
  }

  predicate ValidBounds(b: seq<nat>, n: nat)
  {
    StrictlyIncreasing(b) && forall k | 0 <= k < |b| :: b[k] <= n
  }

  function IntervalsOf(ts: seq<int>, b: seq<nat>, intervalMinutes: int): (r: seq<ActiveInterval>)
    requires ValidBounds(b, |ts|) && intervalMinutes != 0
    ensures |r| == if |b| < 2 then 0 else |b| - 1
  {
    if |b| < 2 then [] else [MakeInterval(ts, b[0], b[1], intervalMinutes)] + IntervalsOf(ts, b[1..], intervalMinutes)
  }

  lemma {:induction false} IntervalsOfAt(ts: seq<int>, b: seq<nat>, intervalMinutes: int, k: nat)
    requires ValidBounds(b, |ts|) && intervalMinutes != 0 && k + 1 < |b|
    ensures IntervalsOf(ts, b, intervalMinutes)[k] == MakeInterval(ts, b[k], b[k + 1], intervalMinutes)
  {
    if k > 0 { IntervalsOfAt(ts, b[1..], intervalMinutes, k - 1); }
  }

  lemma {:induction false} IntervalsOfSnoc(ts: seq<int>, b: seq<nat>, x: nat, intervalMinutes: int)
    requires ValidBounds(b, |ts|) && |b| >= 1 && b[|b| - 1] < x <= |ts| && intervalMinutes != 0
    ensures ValidBounds(b + [x], |ts|)
    ensures IntervalsOf(ts, b + [x], intervalMinutes)
         == IntervalsOf(ts, b, intervalMinutes) + [MakeInterval(ts, b[|b| - 1], x, intervalMinutes)]
  {
    AppendValid(b, x, |ts|);
    if |b| > 1 {
      assert (b + [x])[1..] == b[1..] + [x];
      TailValid(b, |ts|);
      IntervalsOfSnoc(ts, b[1..], x, intervalMinutes);
    }
  }

  lemma TailValid(b: seq<nat>, n: nat)
    requires ValidBounds(b, n) && |b| >= 1
    ensures ValidBounds(b[1..], n)
  {
    var t := b[1..];
    forall k | 0 <= k < |t| ensures t[k] == b[k + 1] { }
  }

  /** The intervals STAT001 reports for one device's sorted, non-empty timestamps. */
  function Intervals(ts: seq<int>, maxGap: int, intervalMinutes: int): seq<ActiveInterval>
    requires |ts| > 0 && intervalMinutes != 0
  {
    BoundsValid(ts, maxGap);
    IntervalsOf(ts, Bounds(ts, maxGap), intervalMinutes)
  }

  /** Where the interval still open after the first `i` timestamps begins. */
  function LastBound(ts: seq<int>, maxGap: int, i: nat): (s: nat)
    requires 1 <= i <= |ts|
    ensures s < i
  {
    BoundsToValid(ts, maxGap, i);
    var p := BoundsTo(ts, maxGap, i);
    p[|p| - 1]
  }

  /** The intervals already closed after the first `i` timestamps. */
  function ClosedIntervals(ts: seq<int>, maxGap: int, intervalMinutes: int, i: nat): seq<ActiveInterval>
    requires 1 <= i <= |ts| && intervalMinutes != 0
  {
    BoundsToValid(ts, maxGap, i);
    IntervalsOf(ts, BoundsTo(ts, maxGap, i), intervalMinutes)
  }

  /** One step of the walk: a small gap extends the open interval, a wide one closes it. */
  lemma SegmentStep(ts: seq<int>, maxGap: int, intervalMinutes: int, i: nat)
    requires 1 <= i < |ts| && intervalMinutes != 0
    ensures ts[i] - ts[i - 1] <= maxGap ==>
      LastBound(ts, maxGap, i + 1) == LastBound(ts, maxGap, i)
      && ClosedIntervals(ts, maxGap, intervalMinutes, i + 1) == ClosedIntervals(ts, maxGap, intervalMinutes, i)
    ensures ts[i] - ts[i - 1] > maxGap ==>
      LastBound(ts, maxGap, i + 1) == i
      && ClosedIntervals(ts, maxGap, intervalMinutes, i + 1)
         == ClosedIntervals(ts, maxGap, intervalMinutes, i) + [MakeInterval(ts, LastBound(ts, maxGap, i), i, intervalMinutes)]
  {
    BoundsToValid(ts, maxGap, i);
    BoundsToStep(ts, maxGap, i);
    if ts[i] - ts[i - 1] > maxGap {
      IntervalsOfSnoc(ts, BoundsTo(ts, maxGap, i), i, intervalMinutes);
    } else {
      assert BoundsTo(ts, maxGap, i + 1) == BoundsTo(ts, maxGap, i);
    }
  }

  /** At the end of the walk the open interval is the last one. */
  lemma SegmentEnd(ts: seq<int>, maxGap: int, intervalMinutes: int)
    requires |ts| > 0 && intervalMinutes != 0
    ensures Intervals(ts, maxGap, intervalMinutes)
         == ClosedIntervals(ts, maxGap, intervalMinutes, |ts|)
            + [MakeInterval(ts, LastBound(ts, maxGap, |ts|), |ts|, intervalMinutes)]
  {
    BoundsToValid(ts, maxGap, |ts|);
    IntervalsOfSnoc(ts, BoundsTo(ts, maxGap, |ts|), |ts|, intervalMinutes);
  }

  /**
   * The segmentation loop of STAT001: walks the timestamps, extends the
   * current interval while the gap is at most `maxGap` and closes it otherwise.
   */
  method SegmentTimestamps(ts: seq<int>, maxGap: int, intervalMinutes: int) returns (intervals: seq<ActiveInterval>)
    requires |ts| > 0 && intervalMinutes != 0
    ensures intervals == Intervals(ts, maxGap, intervalMinutes)
  {
    intervals := [];
    var currentStart, currentEnd := ts[0], ts[0];
    ghost var startIndex: nat := 0;
    var i := 1;
    while i < |ts|
      invariant 1 <= i <= |ts|
      invariant startIndex == LastBound(ts, maxGap, i)
      invariant intervals == ClosedIntervals(ts, maxGap, intervalMinutes, i)
      invariant currentStart == ts[startIndex] && currentEnd == ts[i - 1]
    {
      SegmentStep(ts, maxGap, intervalMinutes, i);
      if ts[i] - ts[i - 1] <= maxGap {
        currentEnd := ts[i];
      } else {
        var closed := ActiveInterval(currentStart, currentEnd, CountInRange(ts, currentStart, currentEnd),
                                     ExpectedRecords(currentEnd - currentStart, intervalMinutes));
        assert closed == MakeInterval(ts, startIndex, i, intervalMinutes);
        intervals := intervals + [closed];
        currentStart, currentEnd := ts[i], ts[i];
        startIndex := i;
      }
      i := i + 1;
    }
    SegmentEnd(ts, maxGap, intervalMinutes);
    intervals := intervals + [ActiveInterval(currentStart, currentEnd, CountInRange(ts, currentStart, currentEnd),
                                             ExpectedRecords(currentEnd - currentStart, intervalMinutes))];
  }

  /** The `k`-th interval spans the positions between the `k`-th and the next boundary. */
  lemma IntervalAt(ts: seq<int>, maxGap: int, intervalMinutes: int, k: nat)
    requires |ts| > 0 && intervalMinutes != 0 && k < |Intervals(ts, maxGap, intervalMinutes)|
    ensures var b := Bounds(ts, maxGap);
      k + 1 < |b| && b[k] < b[k + 1] <= |ts|
      && Intervals(ts, maxGap, intervalMinutes)[k] == MakeInterval(ts, b[k], b[k + 1], intervalMinutes)
  {
    BoundsValid(ts, maxGap);
    IntervalsOfAt(ts, Bounds(ts, maxGap), intervalMinutes, k);
  }

  /** Neighbouring intervals are separated by more than `maxGap`. */
  lemma NeighbourGap(ts: seq<int>, maxGap: int, intervalMinutes: int, k: nat)
    requires |ts| > 0 && intervalMinutes != 0 && k + 1 < |Intervals(ts, maxGap, intervalMinutes)|
    ensures var ivs := Intervals(ts, maxGap, intervalMinutes); ivs[k + 1].start - ivs[k].end > maxGap
  {
    IntervalAt(ts, maxGap, intervalMinutes, k);
    IntervalAt(ts, maxGap, intervalMinutes, k + 1);
    BoundsAtGaps(ts, maxGap, k + 1);
  }

  /**
   * The intervals start at the first timestamp and end at the last; the gap
   * between neighbouring intervals exceeds `maxGap`; each interval counts the
   * timestamps it spans.
   */
  lemma IntervalsShape(ts: seq<int>, maxGap: int, intervalMinutes: int)
    requires |ts| > 0 && intervalMinutes != 0
    ensures var ivs := Intervals(ts, maxGap, intervalMinutes);
      |ivs| >= 1 && ivs[0].start == ts[0] && ivs[|ivs| - 1].end == ts[|ts| - 1]
      && (forall k | 0 <= k < |ivs| - 1 :: ivs[k + 1].start - ivs[k].end > maxGap)
      && (forall k | 0 <= k < |ivs| :: ivs[k].recordCount == CountInRange(ts, ivs[k].start, ivs[k].end))
  {
    BoundsValid(ts, maxGap);
    var ivs := Intervals(ts, maxGap, intervalMinutes);
    IntervalAt(ts, maxGap, intervalMinutes, 0);
    IntervalAt(ts, maxGap, intervalMinutes, |ivs| - 1);
    forall k | 0 <= k < |ivs| - 1 ensures ivs[k + 1].start - ivs[k].end > maxGap {
      NeighbourGap(ts, maxGap, intervalMinutes, k);
    }
    forall k | 0 <= k < |ivs| ensures ivs[k].recordCount == CountInRange(ts, ivs[k].start, ivs[k].end) {
      IntervalAt(ts, maxGap, intervalMinutes, k);
    }
  }

  /**
   * The intervals are exactly the runs between consecutive boundaries, and a
   * position starts a new interval iff the gap from its predecessor exceeds `maxGap`.
   */
  lemma IntervalsSplitExactlyAtGaps(ts: seq<int>, maxGap: int, intervalMinutes: int)
    requires |ts| > 0 && intervalMinutes != 0
    ensures var ivs, b := Intervals(ts, maxGap, intervalMinutes), Bounds(ts, maxGap);
      |ivs| == |b| - 1 && b[0] == 0 && b[|b| - 1] == |ts| && ValidBounds(b, |ts|)
      && (forall k | 0 <= k < |ivs| :: ivs[k].start == ts[b[k]] && ivs[k].end == ts[b[k + 1] - 1])
      && (forall i | 1 <= i < |ts| :: i in b <==> ts[i] - ts[i - 1] > maxGap)
  {
    var b := Bounds(ts, maxGap);
    BoundsValid(ts, maxGap);
    var ivs := Intervals(ts, maxGap, intervalMinutes);
    forall k | 0 <= k < |ivs| ensures ivs[k].start == ts[b[k]] && ivs[k].end == ts[b[k + 1] - 1] {
      IntervalAt(ts, maxGap, intervalMinutes, k);
    }
    forall i | 1 <= i < |ts| ensures i in b <==> ts[i] - ts[i - 1] > maxGap {
      if i in b {
        var k :| 0 <= k < |b| && b[k] == i;
        BoundsAtGaps(ts, maxGap, k);
      }
      if ts[i] - ts[i - 1] > maxGap { GapsAtBounds(ts, maxGap, i); }
    }
  }

  /** In sorted data each interval runs forward, and with `maxGap >= 0` they are disjoint and ordered. */
  lemma IntervalsOrdered(ts: seq<int>, maxGap: int, intervalMinutes: int)
    requires Sorted(ts) && |ts| > 0 && intervalMinutes != 0
    ensures var ivs := Intervals(ts, maxGap, intervalMinutes);
      (forall k | 0 <= k < |ivs| :: ivs[k].start <= ivs[k].end)
      && (maxGap >= 0 ==> forall k | 0 <= k < |ivs| - 1 :: ivs[k].end < ivs[k + 1].start)
      && (intervalMinutes > 0 ==> forall k | 0 <= k < |ivs| :: ivs[k].expectedRecords >= 1)
  {
    var ivs := Intervals(ts, maxGap, intervalMinutes);
    forall k | 0 <= k < |ivs| ensures ivs[k].start <= ivs[k].end {
      IntervalAt(ts, maxGap, intervalMinutes, k);
      var b := Bounds(ts, maxGap);
      assert ts[b[k]] <= ts[b[k + 1] - 1];
    }
    if maxGap >= 0 {
      forall k | 0 <= k < |ivs| - 1 ensures ivs[k].end < ivs[k + 1].start {
        NeighbourGap(ts, maxGap, intervalMinutes, k);
      }
    }
    if intervalMinutes > 0 {
      forall k | 0 <= k < |ivs| ensures ivs[k].expectedRecords >= 1 {
        IntervalAt(ts, maxGap, intervalMinutes, k);
        var b := Bounds(ts, maxGap);
        assert ts[b[k]] <= ts[b[k + 1] - 1];
        ExpectedRecordsAtLeastOne(ivs[k].end - ivs[k].start, intervalMinutes);
      }
    }
  }

  function TotalRecords(ivs: seq<ActiveInterval>): nat
  {
    if |ivs| == 0 then 0 else ivs[0].recordCount + TotalRecords(ivs[1..])
  }

  /** Every inner boundary sits where the timestamps strictly increase. */
  predicate RisesAt(ts: seq<int>, b: seq<nat>)
  {
    forall k | 0 <= k < |b| :: 0 < b[k] < |ts| ==> ts[b[k] - 1] < ts[b[k]]
  }

  lemma BoundsRest(ts: seq<int>, b: seq<nat>)
    requires ValidBounds(b, |ts|) && |b| >= 2 && RisesAt(ts, b)
    ensures ValidBounds(b[1..], |ts|) && RisesAt(ts, b[1..])
  {
    var rest := b[1..];
    forall k | 0 <= k < |rest| ensures rest[k] == b[k + 1] { }
  }

  /** The first interval counts the positions between the first two bounds. */
  lemma FirstIntervalRecords(ts: seq<int>, b: seq<nat>, intervalMinutes: int)
    requires Sorted(ts) && intervalMinutes != 0
    requires ValidBounds(b, |ts|) && |b| >= 2 && RisesAt(ts, b)
    ensures TotalRecords(IntervalsOf(ts, b, intervalMinutes))
         == b[1] - b[0] + TotalRecords(IntervalsOf(ts, b[1..], intervalMinutes))
  {
    assert b[0] < b[1] <= |ts|;
    CountBlock(ts, b[0], b[1]);
  }

  lemma {:induction false} TotalRecordsOfBounds(ts: seq<int>, b: seq<nat>, intervalMinutes: int)
    requires Sorted(ts) && intervalMinutes != 0
    requires ValidBounds(b, |ts|) && |b| >= 1 && RisesAt(ts, b)
    ensures TotalRecords(IntervalsOf(ts, b, intervalMinutes)) == b[|b| - 1] - b[0]
  {
    if |b| >= 2 {
      var rest := b[1..];
      BoundsRest(ts, b);
      TotalRecordsOfBounds(ts, rest, intervalMinutes);
      FirstIntervalRecords(ts, b, intervalMinutes);
    }
  }

  lemma RisesAtBounds(ts: seq<int>, maxGap: int)
    requires |ts| > 0 && maxGap >= 0
    ensures RisesAt(ts, Bounds(ts, maxGap))
  {
    var b := Bounds(ts, maxGap);
    BoundsValid(ts, maxGap);
    forall k | 0 <= k < |b| && 0 < b[k] < |ts| ensures ts[b[k] - 1] < ts[b[k]] {
      BoundsAtGaps(ts, maxGap, k);
    }
  }

  /** With a non-negative `maxGap`, the record counts add up to the number of timestamps. */
  lemma TotalRecordsCoversAll(ts: seq<int>, maxGap: int, intervalMinutes: int)
    requires Sorted(ts) && |ts| > 0 && maxGap >= 0 && intervalMinutes != 0
    ensures TotalRecords(Intervals(ts, maxGap, intervalMinutes)) == |ts|
  {
    BoundsValid(ts, maxGap);
    RisesAtBounds(ts, maxGap);
    TotalRecordsOfBounds(ts, Bounds(ts, maxGap), intervalMinutes);
  }

  /** Timestamps never more than `maxGap` apart form one interval that holds all of them. */
  lemma SingleInterval(ts: seq<int>, maxGap: int, intervalMinutes: int)
    requires Sorted(ts) && |ts| > 0 && maxGap >= 0 && intervalMinutes != 0
    requires forall i | 1 <= i < |ts| :: ts[i] - ts[i - 1] <= maxGap
    ensures Intervals(ts, maxGap, intervalMinutes)
         == [ActiveInterval(ts[0], ts[|ts| - 1], |ts|, ExpectedRecords(ts[|ts| - 1] - ts[0], intervalMinutes))]
  {
    NoBreaks(ts, maxGap, |ts|);
    assert Bounds(ts, maxGap) == [0, |ts|];
    CountBlock(ts, 0, |ts|);
  }

  lemma {:induction false} NoBreaks(ts: seq<int>, maxGap: int, upTo: nat)
    requires upTo <= |ts|
    requires forall i | 1 <= i < upTo :: ts[i] - ts[i - 1] <= maxGap
    ensures BreaksTo(ts, maxGap, upTo) == []
  {
    if upTo > 1 { NoBreaks(ts, maxGap, upTo - 1); }
  }

  /** Twelve readings five minutes apart, with the default 35-minute gap, make one interval of 12 records. */
  lemma TwelveReadingsOneInterval(t0: int)
    ensures var ts := seq(12, i => t0 + 300 * i);
      Intervals(ts, 35 * 60, 5) == [ActiveInterval(t0, t0 + 3300, 12, 12)]
  {
    var ts := seq(12, i => t0 + 300 * i);
    SingleInterval(ts, 35 * 60, 5);
  }

  /** The parseable timestamps of a device, in record order. */
  function ValidTimestamps(records: seq<Record>): (ts: seq<int>)
    ensures |ts| <= |records|
  {
    if |records| == 0 then []
    else (if records[0].timestamp.Some? then [records[0].timestamp.value] else []) + ValidTimestamps(records[1..])
  }

  /** The parseable timestamps, sorted (`timestamps.sort()`). */
  function SortedTimestamps(records: seq<Record>): (ts: seq<int>)
    ensures Sorted(ts) && multiset(ts) == multiset(ValidTimestamps(records))
  {
    Sorting.SortBy(ValidTimestamps(records), (x: int) => x)
  }

  /** STAT001 for one device: no records or no parseable timestamp gives no interval. */
  function DeviceIntervals(records: seq<Record>, intervalMinutes: int, maxGapMinutes: int)
    : Result<seq<ActiveInterval>, StatError>
  {
    var ts := SortedTimestamps(records);
    if |records| == 0 || |ts| == 0 then Ok([])
    else if intervalMinutes == 0 then Err(DivisionByZero)
    else Ok(Intervals(ts, maxGapMinutes * 60, intervalMinutes))
  }

  /** `stat001_active_time_intervals` over the whole device table. */
  function ActiveTimeIntervals(devices: map<string, seq<Record>>, intervalMinutes: int, maxGapMinutes: int)
    : Result<map<string, seq<ActiveInterval>>, StatError>
  {
    if exists d | d in devices :: DeviceIntervals(devices[d], intervalMinutes, maxGapMinutes).Err? then
      Err(DivisionByZero)
    else
      Ok(map d | d in devices :: DeviceIntervals(devices[d], intervalMinutes, maxGapMinutes).value)
  }

  /**
   * The report has one entry per device; a device without parseable timestamps
   * gets none; otherwise its intervals follow the sorted timestamps and count
   * every one of them.
   */
  lemma ActiveTimeIntervalsReport(devices: map<string, seq<Record>>, intervalMinutes: int, maxGapMinutes: int)
    requires intervalMinutes > 0 && maxGapMinutes >= 0
    ensures ActiveTimeIntervals(devices, intervalMinutes, maxGapMinutes).Ok?
    ensures var r := ActiveTimeIntervals(devices, intervalMinutes, maxGapMinutes).value;
      r.Keys == devices.Keys
      && (forall d | d in r :: (r[d] == [] <==> |ValidTimestamps(devices[d])| == 0))
      && (forall d | d in r :: TotalRecords(r[d]) == |ValidTimestamps(devices[d])|)
      && (forall d | d in r && r[d] != [] ::
            r[d][0].start == SortedTimestamps(devices[d])[0])
  {
    var r: map<string, seq<ActiveInterval>> := ActiveTimeIntervals(devices, intervalMinutes, maxGapMinutes).value;
    forall d | d in r
      ensures r[d] == [] <==> |ValidTimestamps(devices[d])| == 0
      ensures TotalRecords(r[d]) == |ValidTimestamps(devices[d])|
      ensures r[d] != [] ==> r[d][0].start == SortedTimestamps(devices[d])[0]
    {
      var ts := SortedTimestamps(devices[d]);
      assert |ts| == |ValidTimestamps(devices[d])|;
      if |ts| > 0 {
        assert |devices[d]| > 0;
        assert Sorted(ts);
        TotalRecordsCoversAll(ts, maxGapMinutes * 60, intervalMinutes);
        IntervalsShape(ts, maxGapMinutes * 60, intervalMinutes);
      }
    }
  }

  // ---------------------------------------------------------------------
  // Cross-device synchronisation (`_synchronize_device_data`)
  // ---------------------------------------------------------------------

  /** One usable reading of the merged stream. */
  datatype Reading = Reading(device: string, timestamp: int, temperature: int)

  /** A synchronised sample: the window's mid timestamp and one temperature per required device. */
  datatype Point = Point(timestamp: int, values: map<string, int>)

  /** A device's records with both a parseable timestamp and a parseable temperature, in order. */
  function DeviceReadings(name: string, records: seq<Record>): (rs: seq<Reading>)
    ensures |rs| <= |records|
    ensures forall k | 0 <= k < |rs| :: rs[k].device == name
  {
    if |records| == 0 then []
    else
      var r := records[|records| - 1];
      DeviceReadings(name, records[..|records| - 1])
      + (if r.timestamp.Some? && r.temperature.Some? then [Reading(name, r.timestamp.value, r.temperature.value)] else [])
  }

  /** The readings of the named devices that exist, device after device. */
  function Collected(devices: map<string, seq<Record>>, names: seq<string>): seq<Reading>
  {
    if |names| == 0 then []
    else
      var n := names[|names| - 1];
      Collected(devices, names[..|names| - 1]) + (if n in devices then DeviceReadings(n, devices[n]) else [])
  }

  lemma {:induction false} CollectedDevices(devices: map<string, seq<Record>>, names: seq<string>)
    ensures forall k | 0 <= k < |Collected(devices, names)| ::
      Collected(devices, names)[k].device in names && Collected(devices, names)[k].device in devices
  {
    if |names| > 0 {
      var front, n := names[..|names| - 1], names[|names| - 1];
      CollectedDevices(devices, front);
      var a: seq<Reading> := Collected(devices, front);
      var b: seq<Reading> := if n in devices then DeviceReadings(n, devices[n]) else [];
      forall k | 0 <= k < |a + b| ensures (a + b)[k].device in names && (a + b)[k].device in devices {
        if k < |a| {
          assert (a + b)[k] == a[k];
          assert a[k].device in front;
        } else {
          assert (a + b)[k] == b[k - |a|];
        }
      }
    }
  }

  /** The collection loop: every usable record of every named device that exists. */
  method CollectReadings(devices: map<string, seq<Record>>, names: seq<string>) returns (all: seq<Reading>)
    ensures all == Collected(devices, names)
  {
    all := [];
    var i := 0;
    while i < |names|
      invariant 0 <= i <= |names|
      invariant all == Collected(devices, names[..i])
    {
      var name := names[i];
      assert names[..i + 1][..i] == names[..i];
      if name in devices {
        var records := devices[name];
        var j := 0;
        while j < |records|
          invariant 0 <= j <= |records|
          invariant all == Collected(devices, names[..i]) + DeviceReadings(name, records[..j])
        {
          var r := records[j];
          assert records[..j + 1][..j] == records[..j];
          if r.timestamp.Some? && r.temperature.Some? {
            all := all + [Reading(name, r.timestamp.value, r.temperature.value)];
          }
          j := j + 1;
        }
        assert records[..j] == records;
      }
      i := i + 1;
    }
    assert names[..i] == names;
  }

  function ByTimestamp(r: Reading): int { r.timestamp }

  /** `all_records.sort(key=lambda x: x['timestamp'])`: a stable sort of the collected readings. */
  function Stream(devices: map<string, seq<Record>>, names: seq<string>): (s: seq<Reading>)
    ensures Sorting.SortedBy(s, ByTimestamp)
    ensures multiset(s) == multiset(Collected(devices, names))
  {
    Sorting.SortBy(Collected(devices, names), ByTimestamp)
  }

  /**
   * One reading arrives: it joins the open window iff it is at most `tol`
   * after that window's first reading, and opens a new window otherwise.
   */
  function Extend(ws: seq<seq<Reading>>, x: Reading, tol: int): seq<seq<Reading>>
  {
    if |ws| == 0 then [[x]]
    else
      var open := ws[|ws| - 1];
      if |open| > 0 && x.timestamp - open[0].timestamp <= tol then ws[..|ws| - 1] + [open + [x]]
      else ws + [[x]]
  }

  /** The windows of a stream, reading by reading. */
  function Windows(s: seq<Reading>, tol: int): (ws: seq<seq<Reading>>)
    ensures |s| > 0 <==> |ws| > 0
  {
    if |s| == 0 then [] else Extend(Windows(s[..|s| - 1], tol), s[|s| - 1], tol)
  }

  lemma WindowsSnoc(s: seq<Reading>, x: Reading, tol: int)
    ensures Windows(s + [x], tol) == Extend(Windows(s, tol), x, tol)
  {
    assert (s + [x])[..|s|] == s;
  }

  function Flatten(ws: seq<seq<Reading>>): seq<Reading>
  {
    if |ws| == 0 then [] else Flatten(ws[..|ws| - 1]) + ws[|ws| - 1]
  }

  lemma FlattenSnoc(ws: seq<seq<Reading>>, w: seq<Reading>)
    ensures Flatten(ws + [w]) == Flatten(ws) + w
  {
    assert (ws + [w])[..|ws|] == ws;
  }

  predicate NonEmptyWindows(ws: seq<seq<Reading>>)
  {
    forall k | 0 <= k < |ws| :: |ws[k]| > 0
  }

  lemma ExtendPartition(ws: seq<seq<Reading>>, x: Reading, tol: int)
    requires NonEmptyWindows(ws)
    ensures NonEmptyWindows(Extend(ws, x, tol))
    ensures Flatten(Extend(ws, x, tol)) == Flatten(ws) + [x]
  {
    if |ws| == 0 {
      assert Flatten([[x]]) == Flatten([]) + [x];
    } else {
      var open, init := ws[|ws| - 1], ws[..|ws| - 1];
      assert ws == init + [open];
      FlattenSnoc(init, open);
      if x.timestamp - open[0].timestamp <= tol {
        FlattenSnoc(init, open + [x]);
      } else {
        FlattenSnoc(ws, [x]);
      }
    }
  }

  /** Every window is non-empty and the windows, in order, are exactly the stream: no reading is lost or repeated. */
  lemma {:induction false} WindowsPartition(s: seq<Reading>, tol: int)
    ensures NonEmptyWindows(Windows(s, tol))
    ensures Flatten(Windows(s, tol)) == s
  {
    if |s| > 0 {
      var front, x := s[..|s| - 1], s[|s| - 1];
      WindowsPartition(front, tol);
      ExtendPartition(Windows(front, tol), x, tol);
      assert s == front + [x];
    }
  }

  predicate WithinTolerance(ws: seq<seq<Reading>>, tol: int)
  {
    forall k, j | 0 <= k < |ws| && 0 <= j < |ws[k]| :: ws[k][j].timestamp - ws[k][0].timestamp <= tol
  }

  lemma ExtendWithinTolerance(ws: seq<seq<Reading>>, x: Reading, tol: int)
    requires tol >= 0 && NonEmptyWindows(ws) && WithinTolerance(ws, tol)
    ensures WithinTolerance(Extend(ws, x, tol), tol)
  {
  }

  /** Every reading of a window is at most `tol` after the window's first reading. */
  lemma {:induction false} WindowsWithinTolerance(s: seq<Reading>, tol: int)
    requires tol >= 0
    ensures WithinTolerance(Windows(s, tol), tol)
  {
    if |s| > 0 {
      var front := s[..|s| - 1];
      WindowsWithinTolerance(front, tol);
      WindowsPartition(front, tol);
      ExtendWithinTolerance(Windows(front, tol), s[|s| - 1], tol);
    }
  }

  /** Each window after the first starts more than `tol` after the start of the one before it. */
  predicate Separated(ws: seq<seq<Reading>>, tol: int)
    requires NonEmptyWindows(ws)
  {
    forall k | 1 <= k < |ws| :: ws[k][0].timestamp - ws[k - 1][0].timestamp > tol
  }

  lemma ExtendSeparated(ws: seq<seq<Reading>>, x: Reading, tol: int)
    requires NonEmptyWindows(ws) && Separated(ws, tol)
    ensures NonEmptyWindows(Extend(ws, x, tol)) && Separated(Extend(ws, x, tol), tol)
  {
    ExtendPartition(ws, x, tol);
  }

  lemma {:induction false} WindowsSeparated(s: seq<Reading>, tol: int)
    ensures NonEmptyWindows(Windows(s, tol)) && Separated(Windows(s, tol), tol)
  {
    if |s| > 0 {
      var front := s[..|s| - 1];
      WindowsSeparated(front, tol);
      ExtendSeparated(Windows(front, tol), s[|s| - 1], tol);
    }
  }

  // ---------------------------------------------------------------------
  // One window (`_process_time_window`)
  // ---------------------------------------------------------------------

  /** A reading replaces the device's kept one only when it is strictly later. */
  function Keep(m: map<string, Reading>, r: Reading): map<string, Reading>
  {
    if r.device !in m || r.timestamp > m[r.device].timestamp then m[r.device := r] else m
  }

  /** The kept reading of every device after walking a window in order. */
  function LatestMap(w: seq<Reading>): map<string, Reading>
  {
    if |w| == 0 then map[] else Keep(LatestMap(w[..|w| - 1]), w[|w| - 1])
  }

  /** Reading `j` is the device's latest in the window, and no earlier reading of it is as late. */
  predicate LatestAt(w: seq<Reading>, d: string, j: nat)
  {
    j < |w| && w[j].device == d
    && (forall k | 0 <= k < |w| && w[k].device == d :: w[k].timestamp <= w[j].timestamp)
    && (forall k | 0 <= k < j && w[k].device == d :: w[k].timestamp < w[j].timestamp)
  }

  lemma {:induction false} LatestKeys(w: seq<Reading>, d: string)
    ensures d in LatestMap(w) <==> exists k | 0 <= k < |w| :: w[k].device == d
  {
    if |w| > 0 {
      var front := w[..|w| - 1];
      LatestKeys(front, d);
      assert forall k | 0 <= k < |front| :: w[k] == front[k];
    }
  }

  lemma {:induction false} LatestWitness(w: seq<Reading>, d: string) returns (j: nat)
    requires d in LatestMap(w)
    ensures LatestAt(w, d, j) && w[j] == LatestMap(w)[d]
  {
    var front, r := w[..|w| - 1], w[|w| - 1];
    var m := LatestMap(front);
    if r.device == d && (d !in m || r.timestamp > m[d].timestamp) {
      j := |w| - 1;
      if d in m {
        var i := LatestWitness(front, d);
        forall k | 0 <= k < |w| - 1 && w[k].device == d ensures w[k].timestamp < r.timestamp {
          assert w[k] == front[k];
        }
      } else {
        LatestKeys(front, d);
        forall k | 0 <= k < |w| - 1 ensures w[k].device != d {
          assert w[k] == front[k];
        }
      }
    } else {
      j := LatestWitness(front, d);
      assert LatestMap(w)[d] == m[d];
      forall k | 0 <= k < |w| && w[k].device == d ensures w[k].timestamp <= w[j].timestamp {
        if k < |front| { assert w[k] == front[k]; }
      }
      forall k | 0 <= k < j && w[k].device == d ensures w[k].timestamp < w[j].timestamp {
        assert w[k] == front[k];
      }
    }
  }

  /**
   * A device is kept iff it has a reading in the window, and its kept reading
   * is one with the greatest timestamp; among equal timestamps the first seen.
   */
  lemma LatestOf(w: seq<Reading>, d: string)
    ensures d in LatestMap(w) <==> exists k | 0 <= k < |w| :: w[k].device == d
    ensures d in LatestMap(w) ==> exists j | 0 <= j < |w| ::
      w[j] == LatestMap(w)[d] && w[j].device == d
      && (forall k | 0 <= k < |w| && w[k].device == d :: w[k].timestamp <= w[j].timestamp)
      && (forall k | 0 <= k < j && w[k].device == d :: w[k].timestamp < w[j].timestamp)
  {
    LatestKeys(w, d);
    if d in LatestMap(w) {
      var j := LatestWitness(w, d);
      assert LatestAt(w, d, j);
    }
  }

  function TimestampsOf(w: seq<Reading>): (ts: seq<int>)
    ensures |ts| == |w| && forall k | 0 <= k < |w| :: ts[k] == w[k].timestamp
  {
    seq(|w|, k requires 0 <= k < |w| => w[k].timestamp)
  }

  /** `min + (max - min) / 2` over the window's timestamps, in whole seconds. */
  function MidTimestamp(w: seq<Reading>): int
    requires |w| > 0
  {
    var ts := TimestampsOf(w);
    MinOf(ts) + (MaxOf(ts) - MinOf(ts)) / 2
  }

  /** The midpoint lies between the earliest and the latest reading of the window. */
  lemma MidWithinSpan(w: seq<Reading>)
    requires |w| > 0
    ensures var ts := TimestampsOf(w);
      MinOf(ts) <= MidTimestamp(w) <= MaxOf(ts)
      && forall k | 0 <= k < |w| :: MinOf(ts) <= w[k].timestamp <= MaxOf(ts)
  {
    var ts := TimestampsOf(w);
    assert MinOf(ts) <= ts[0] <= MaxOf(ts);
  }

  /** The sample a window yields: present only when every required device has a reading in it. */
  function WindowPoint(w: seq<Reading>, required: seq<string>): Option<Point>
    requires |w| > 0
  {
    var m := LatestMap(w);
    if forall d | d in required :: d in m then
      Some(Point(MidTimestamp(w), map d | d in required :: m[d].temperature))
    else None
  }

  /** A window yields a point iff every required device has a reading in it. */
  lemma WindowPointPresent(w: seq<Reading>, required: seq<string>)
    requires |w| > 0
    ensures WindowPoint(w, required).Some?
        <==> forall d | d in required :: exists k | 0 <= k < |w| :: w[k].device == d
  {
    forall d | d in required { LatestOf(w, d); }
  }

  /** A required device's value is the temperature of its latest reading, the first seen among equally late ones. */
  lemma PointValue(w: seq<Reading>, required: seq<string>, d: string)
    requires |w| > 0 && WindowPoint(w, required).Some? && d in required
    ensures var p := WindowPoint(w, required).value;
      exists j | 0 <= j < |w| ::
        w[j].device == d && p.values[d] == w[j].temperature
        && (forall k | 0 <= k < |w| && w[k].device == d :: w[k].timestamp <= w[j].timestamp)
        && (forall k | 0 <= k < j && w[k].device == d :: w[k].timestamp < w[j].timestamp)
  {
    LatestOf(w, d);
  }

  /**
   * A point holds exactly the required devices, each with the temperature of
   * its latest reading, and its timestamp lies within the window's span.
   */
  lemma WindowPointProperties(w: seq<Reading>, required: seq<string>)
    requires |w| > 0 && WindowPoint(w, required).Some?
    ensures var p, ts := WindowPoint(w, required).value, TimestampsOf(w);
      p.values.Keys == (set d | d in required)
      && MinOf(ts) <= p.timestamp <= MaxOf(ts)
      && forall d | d in required :: exists j | 0 <= j < |w| ::
           w[j].device == d && p.values[d] == w[j].temperature
           && (forall k | 0 <= k < |w| && w[k].device == d :: w[k].timestamp <= w[j].timestamp)
           && (forall k | 0 <= k < j && w[k].device == d :: w[k].timestamp < w[j].timestamp)
  {
    forall d | d in required { PointValue(w, required, d); }
    MidWithinSpan(w);
  }

  lemma LatestMapStep(w: seq<Reading>, i: nat)
    requires i < |w|
    ensures LatestMap(w[..i + 1]) == Keep(LatestMap(w[..i]), w[i])
    ensures TimestampsOf(w[..i + 1]) == TimestampsOf(w[..i]) + [w[i].timestamp]
  {
    assert w[..i + 1][..i] == w[..i];
  }

  /** The window loop: keeps the latest reading per device and collects the timestamps. */
  method ProcessTimeWindow(w: seq<Reading>, required: seq<string>) returns (point: Option<Point>)
    requires |w| > 0
    ensures point == WindowPoint(w, required)
  {
    var deviceTemps: map<string, Reading> := map[];
    var timestamps: seq<int> := [];
    var i := 0;
    while i < |w|
      invariant 0 <= i <= |w|
      invariant deviceTemps == LatestMap(w[..i])
      invariant timestamps == TimestampsOf(w[..i])
    {
      var r := w[i];
      LatestMapStep(w, i);
      if r.device !in deviceTemps || r.timestamp > deviceTemps[r.device].timestamp {
        deviceTemps := deviceTemps[r.device := r];
      }
      timestamps := timestamps + [r.timestamp];
      i := i + 1;
    }
    assert w[..i] == w;
    assert deviceTemps == LatestMap(w) && timestamps == TimestampsOf(w);
    if !(forall d | d in required :: d in deviceTemps) {
      return None;
    }
    var lo, hi := MinOf(timestamps), MaxOf(timestamps);
    assert lo + (hi - lo) / 2 == MidTimestamp(w);
    point := Some(Point(lo + (hi - lo) / 2, map d | d in required :: deviceTemps[d].temperature));
  }

  // ---------------------------------------------------------------------
  // The synchroniser loop and the STAT002 guards
  // ---------------------------------------------------------------------

  /** The points of the windows that have every required device, in window order. */
  function Samples(ws: seq<seq<Reading>>, required: seq<string>): seq<Point>
    requires NonEmptyWindows(ws)
  {
    if |ws| == 0 then []
    else
      var w := ws[|ws| - 1];
      Samples(ws[..|ws| - 1], required) + (if WindowPoint(w, required).Some? then [WindowPoint(w, required).value] else [])
  }

  lemma SamplesSnoc(ws: seq<seq<Reading>>, w: seq<Reading>, required: seq<string>)
    requires NonEmptyWindows(ws) && |w| > 0
    ensures NonEmptyWindows(ws + [w])
    ensures Samples(ws + [w], required)
         == Samples(ws, required) + (if WindowPoint(w, required).Some? then [WindowPoint(w, required).value] else [])
  {
    assert (ws + [w])[..|ws|] == ws;
  }

  /** One reading of the synchroniser loop, in terms of the closed windows and the open one. */
  lemma SyncStep(all: seq<Reading>, i: nat, tol: int, done: seq<seq<Reading>>, current: seq<Reading>)
    requires i < |all|
    requires i == 0 ==> done == [] && current == []
    requires i > 0 ==> |current| > 0 && Windows(all[..i], tol) == done + [current]
    ensures i == 0 ==> Windows(all[..1], tol) == done + [current + [all[0]]]
    ensures i > 0 && all[i].timestamp - current[0].timestamp <= tol ==>
      Windows(all[..i + 1], tol) == done + [current + [all[i]]]
    ensures i > 0 && all[i].timestamp - current[0].timestamp > tol ==>
      Windows(all[..i + 1], tol) == (done + [current]) + [[all[i]]]
  {
    WindowsSnoc(all[..i], all[i], tol);
    assert all[..i + 1] == all[..i] + [all[i]];
    if i > 0 {
      assert (done + [current])[..|done|] == done;
    } else {
      assert done + [current + [all[0]]] == [[all[0]]];
    }
  }

  /** The samples of a merged stream's windows. */
  function WindowSamples(s: seq<Reading>, names: seq<string>, tol: int): seq<Point>
  {
    WindowsPartition(s, tol);
    Samples(Windows(s, tol), names)
  }

  /** What `_synchronize_device_data` returns for the named devices and a tolerance in seconds. */
  function Synchronized(devices: map<string, seq<Record>>, names: seq<string>, tol: int): seq<Point>
  {
    WindowSamples(Stream(devices, names), names, tol)
  }

  /**
   * The window loop of the synchroniser over a merged stream: closes a window
   * whenever a reading is more than `tol` after the window's first one, and
   * processes the last window too.
   */
  method GroupWindows(all: seq<Reading>, names: seq<string>, tol: int) returns (synced: seq<Point>)
    requires tol >= 0 && |all| > 0
    ensures synced == WindowSamples(all, names, tol)
  {
    synced := [];
    var current: seq<Reading> := [];
    var windowStart := all[0].timestamp;
    ghost var done: seq<seq<Reading>> := [];
    var i := 0;
    while i < |all|
      invariant 0 <= i <= |all|
      invariant NonEmptyWindows(done) && synced == Samples(done, names)
      invariant i == 0 ==> current == [] && done == [] && windowStart == all[0].timestamp
      invariant i > 0 ==> |current| > 0 && windowStart == current[0].timestamp
      invariant i > 0 ==> Windows(all[..i], tol) == done + [current]
    {
      var r := all[i];
      SyncStep(all, i, tol, done, current);
      if r.timestamp - windowStart <= tol {
        current := current + [r];
      } else {
        var point := ProcessTimeWindow(current, names);
        SamplesSnoc(done, current, names);
        if point.Some? {
          synced := synced + [point.value];
        }
        done := done + [current];
        current := [r];
        windowStart := r.timestamp;
      }
      i := i + 1;
    }
    assert all[..i] == all;
    WindowsPartition(all, tol);
    var point := ProcessTimeWindow(current, names);
    SamplesSnoc(done, current, names);
    if point.Some? {
      synced := synced + [point.value];
    }
  }

  /** `_synchronize_device_data`: collect, sort by timestamp, group into windows; no readings give no samples. */
  method SynchronizeDeviceData(devices: map<string, seq<Record>>, names: seq<string>, tol: int)
    returns (synced: seq<Point>)
    requires tol >= 0
    ensures synced == Synchronized(devices, names, tol)
  {
    var all := CollectReadings(devices, names);
    all := Sorting.SortBy(all, ByTimestamp);
    if |all| == 0 {
      return [];
    }
    synced := GroupWindows(all, names, tol);
  }

  // ---------------------------------------------------------------------
  // Order of the samples over a sorted stream
  // ---------------------------------------------------------------------

  predicate SortedReadings(s: seq<Reading>)
  {
    forall i, j | 0 <= i < j < |s| :: s[i].timestamp <= s[j].timestamp
  }

  lemma StreamSorted(devices: map<string, seq<Record>>, names: seq<string>)
    ensures SortedReadings(Stream(devices, names))
  {
    var s := Stream(devices, names);
    forall i, j | 0 <= i < j < |s| ensures s[i].timestamp <= s[j].timestamp {
      assert ByTimestamp(s[i]) <= ByTimestamp(s[j]);
    }
  }

  /** Every reading of an earlier window is strictly before the start of every later window. */
  predicate Ascending(ws: seq<seq<Reading>>)
    requires NonEmptyWindows(ws)
  {
    forall l, k, j | 0 <= l < k < |ws| && 0 <= j < |ws[l]| :: ws[l][j].timestamp < ws[k][0].timestamp
  }

  /** Every window starts with its earliest reading. */
  predicate StartsFirst(ws: seq<seq<Reading>>)
    requires NonEmptyWindows(ws)
  {
    forall k, j | 0 <= k < |ws| && 0 <= j < |ws[k]| :: ws[k][0].timestamp <= ws[k][j].timestamp
  }

  lemma ExtendAscending(ws: seq<seq<Reading>>, x: Reading, tol: int)
    requires tol >= 0 && NonEmptyWindows(ws) && WithinTolerance(ws, tol)
    requires Ascending(ws) && StartsFirst(ws)
    requires forall k, j | 0 <= k < |ws| && 0 <= j < |ws[k]| :: ws[k][j].timestamp <= x.timestamp
    ensures NonEmptyWindows(Extend(ws, x, tol))
    ensures Ascending(Extend(ws, x, tol)) && StartsFirst(Extend(ws, x, tol))
  {
    ExtendPartition(ws, x, tol);
    if |ws| > 0 {
      var n, open := |ws|, ws[|ws| - 1];
      if x.timestamp - open[0].timestamp <= tol {
        JoinAscending(ws, x);
      } else {
        assert forall j | 0 <= j < |open| :: open[j].timestamp - open[0].timestamp <= tol;
        OpenAscending(ws, open, x);
      }
    }
  }

  lemma OpenAscending(ws: seq<seq<Reading>>, open: seq<Reading>, x: Reading)
    requires NonEmptyWindows(ws) && |ws| > 0 && Ascending(ws) && StartsFirst(ws)
    requires forall k, j | 0 <= k < |ws| && 0 <= j < |ws[k]| :: ws[k][j].timestamp <= x.timestamp
    requires open == ws[|ws| - 1] && forall j | 0 <= j < |open| :: open[j].timestamp < x.timestamp
    ensures Ascending(ws + [[x]]) && StartsFirst(ws + [[x]])
  {
    var n := |ws|;
    var r: seq<seq<Reading>> := ws + [[x]];
    forall l, k, j | 0 <= l < k < |r| && 0 <= j < |r[l]| ensures r[l][j].timestamp < r[k][0].timestamp {
      assert r[l] == ws[l];
      if k == n && l < n - 1 {
        assert ws[l][j].timestamp < ws[n - 1][0].timestamp;
      } else if k < n {
        assert r[k] == ws[k];
      }
    }
    forall k, j | 0 <= k < |r| && 0 <= j < |r[k]| ensures r[k][0].timestamp <= r[k][j].timestamp {
      if k < n { assert r[k] == ws[k]; }
    }
  }

  lemma JoinAscending(ws: seq<seq<Reading>>, x: Reading)
    requires NonEmptyWindows(ws) && |ws| > 0 && Ascending(ws) && StartsFirst(ws)
    requires ws[|ws| - 1][0].timestamp <= x.timestamp
    ensures var r := ws[..|ws| - 1] + [ws[|ws| - 1] + [x]];
      NonEmptyWindows(r) && Ascending(r) && StartsFirst(r)
  {
    var n, open := |ws|, ws[|ws| - 1];
    var r: seq<seq<Reading>> := ws[..n - 1] + [open + [x]];
    assert forall k | 0 <= k < n - 1 :: r[k] == ws[k];
    assert r[n - 1][0] == open[0];
    forall l, k, j | 0 <= l < k < |r| && 0 <= j < |r[l]| ensures r[l][j].timestamp < r[k][0].timestamp {
      assert r[l][j] == ws[l][j];
    }
    forall k, j | 0 <= k < |r| && 0 <= j < |r[k]| ensures r[k][0].timestamp <= r[k][j].timestamp {
      if k == n - 1 && j < |open| { assert r[k][j] == open[j]; }
    }
  }

  lemma FlattenMember(ws: seq<seq<Reading>>, k: nat, j: nat)
    requires k < |ws| && j < |ws[k]|
    ensures exists i | 0 <= i < |Flatten(ws)| :: Flatten(ws)[i] == ws[k][j]
  {
    var front := ws[..|ws| - 1];
    if k < |ws| - 1 {
      FlattenMember(front, k, j);
      var i :| 0 <= i < |Flatten(front)| && Flatten(front)[i] == front[k][j];
      assert Flatten(ws)[i] == Flatten(front)[i];
    } else {
      assert Flatten(ws)[|Flatten(front)| + j] == ws[k][j];
    }
  }

  /** Over a sorted stream the windows follow one another and start with their earliest reading. */
  lemma {:induction false} WindowsAscending(s: seq<Reading>, tol: int)
    requires tol >= 0 && SortedReadings(s)
    ensures NonEmptyWindows(Windows(s, tol))
    ensures Ascending(Windows(s, tol)) && StartsFirst(Windows(s, tol))
  {
    WindowsPartition(s, tol);
    if |s| > 0 {
      var front, x := s[..|s| - 1], s[|s| - 1];
      var ws: seq<seq<Reading>> := Windows(front, tol);
      assert SortedReadings(front) by {
        forall i, j | 0 <= i < j < |front| ensures front[i].timestamp <= front[j].timestamp {
          assert front[i] == s[i] && front[j] == s[j];
        }
      }
      WindowsAscending(front, tol);
      WindowsWithinTolerance(front, tol);
      WindowsPartition(front, tol);
      forall k, j | 0 <= k < |ws| && 0 <= j < |ws[k]| ensures ws[k][j].timestamp <= x.timestamp {
        FlattenMember(ws, k, j);
        var i :| 0 <= i < |front| && front[i] == ws[k][j];
        assert s[i] == front[i];
      }
      ExtendAscending(ws, x, tol);
    }
  }

  /** Readings all before `bound` give samples all before `bound`. */
  lemma {:induction false} SamplesBelow(ws: seq<seq<Reading>>, names: seq<string>, bound: int)
    requires NonEmptyWindows(ws)
    requires forall k, j | 0 <= k < |ws| && 0 <= j < |ws[k]| :: ws[k][j].timestamp < bound
    ensures forall i | 0 <= i < |Samples(ws, names)| :: Samples(ws, names)[i].timestamp < bound
  {
    if |ws| > 0 {
      var init, w := ws[..|ws| - 1], ws[|ws| - 1];
      SamplesBelow(init, names, bound);
      MidWithinSpan(w);
      var ts := TimestampsOf(w);
      var k :| 0 <= k < |ts| && ts[k] == MaxOf(ts);
      assert w[k].timestamp < bound;
    }
  }

  /** Over a sorted stream the samples come out in strictly increasing time order. */
  lemma {:induction false} SamplesIncreasing(ws: seq<seq<Reading>>, names: seq<string>)
    requires NonEmptyWindows(ws) && Ascending(ws) && StartsFirst(ws)
    ensures forall i, j | 0 <= i < j < |Samples(ws, names)| :: Samples(ws, names)[i].timestamp < Samples(ws, names)[j].timestamp
  {
    if |ws| > 0 {
      var init, w := ws[..|ws| - 1], ws[|ws| - 1];
      assert NonEmptyWindows(init) && Ascending(init) && StartsFirst(init) by {
        forall k | 0 <= k < |init| ensures init[k] == ws[k] { }
      }
      SamplesIncreasing(init, names);
      SamplesBelow(init, names, w[0].timestamp);
      MidWithinSpan(w);
      var ts := TimestampsOf(w);
      var k :| 0 <= k < |ts| && ts[k] == MinOf(ts);
      assert w[0].timestamp <= w[k].timestamp;
    }
  }

  /** The synchroniser's samples are in strictly increasing time order, so sorting them again changes nothing. */
  lemma SynchronizedIncreasing(devices: map<string, seq<Record>>, names: seq<string>, tol: int)
    requires tol >= 0
    ensures var p := Synchronized(devices, names, tol);
      forall i, j | 0 <= i < j < |p| :: p[i].timestamp < p[j].timestamp
  {
    var s := Stream(devices, names);
    StreamSorted(devices, names);
    WindowsAscending(s, tol);
    SamplesIncreasing(Windows(s, tol), names);
  }

  /** Every sample holds exactly the required devices. */
  lemma {:induction false} SamplesKeys(ws: seq<seq<Reading>>, names: seq<string>)
    requires NonEmptyWindows(ws)
    ensures forall i | 0 <= i < |Samples(ws, names)| :: Samples(ws, names)[i].values.Keys == (set d | d in names)
  {
    if |ws| > 0 {
      var init, w := ws[..|ws| - 1], ws[|ws| - 1];
      SamplesKeys(init, names);
      if WindowPoint(w, names).Some? { WindowPointProperties(w, names); }
    }
  }

  // ---------------------------------------------------------------------
  // STAT002: the ventilation analysis guards and its difference rows
  // ---------------------------------------------------------------------

  /** Intake, room and terrace sensors, in the order the analysis lists them. */
  const RequiredDevices: seq<string> := ["T1_BE", "T3_Kek", "T2_Terasz"]

  /** The synchroniser's default tolerance, 15 minutes in seconds. */
  const SyncToleranceSeconds: int := 15 * 60

  const MinimumPoints: nat := 10

  datatype VentilationError =
    | NoDeviceData
    | MissingDevices(missing: seq<string>, available: set<string>)
    | InsufficientData(found: nat)

  /** One detailed result: the three temperatures and room minus intake. */
  datatype DifferenceRow = DifferenceRow(timestamp: int, intake: int, external: int, room: int, difference: int)

  /** `[dev for dev in required if dev not in devices]`. */
  function MissingFrom(required: seq<string>, devices: set<string>): (r: seq<string>)
    ensures forall d :: d in r <==> d in required && d !in devices
  {
    if |required| == 0 then []
    else (if required[0] in devices then [] else [required[0]]) + MissingFrom(required[1..], devices)
  }

  function DifferenceRowOf(p: Point): DifferenceRow
    requires p.values.Keys == (set d | d in RequiredDevices)
  {
    DifferenceRow(p.timestamp, p.values["T1_BE"], p.values["T2_Terasz"], p.values["T3_Kek"],
                  p.values["T3_Kek"] - p.values["T1_BE"])
  }

  /** `stat002_temperature_gradient_ventilation_analysis` up to its detailed rows. */
  function VentilationAnalysis(devices: map<string, seq<Record>>): Result<seq<DifferenceRow>, VentilationError>
  {
    if |devices| == 0 then Err(NoDeviceData)
    else if |MissingFrom(RequiredDevices, devices.Keys)| > 0 then
      Err(MissingDevices(MissingFrom(RequiredDevices, devices.Keys), devices.Keys))
    else
      var points := Synchronized(devices, RequiredDevices, SyncToleranceSeconds);
      if |points| < MinimumPoints then Err(InsufficientData(|points|))
      else
        SynchronizedKeys(devices, RequiredDevices, SyncToleranceSeconds);
        Ok(DifferenceRows(points))
  }

  /** One row per point, at the point's time, with room minus intake. */
  function DifferenceRows(points: seq<Point>): (rows: seq<DifferenceRow>)
    requires forall k | 0 <= k < |points| :: points[k].values.Keys == (set d | d in RequiredDevices)
    ensures |rows| == |points|
    ensures forall k | 0 <= k < |rows| ::
      rows[k].timestamp == points[k].timestamp && rows[k].difference == rows[k].room - rows[k].intake
  {
    seq(|points|, k requires 0 <= k < |points| => DifferenceRowOf(points[k]))
  }

  lemma SynchronizedKeys(devices: map<string, seq<Record>>, names: seq<string>, tol: int)
    ensures var p := Synchronized(devices, names, tol);
      forall i | 0 <= i < |p| :: p[i].values.Keys == (set d | d in names)
  {
    var s := Stream(devices, names);
    WindowsPartition(s, tol);
    SamplesKeys(Windows(s, tol), names);
  }

  /**
   * The analysis fails with no devices, with a missing required device (naming
   * exactly the missing ones), or with fewer than 10 synchronised points, and
   * succeeds otherwise.
   */
  lemma VentilationAnalysisGuards(devices: map<string, seq<Record>>)
    ensures var r := VentilationAnalysis(devices);
      (|devices| == 0 <==> r == Err(NoDeviceData))
      && (r.Err? && r.error.MissingDevices? ==>
            forall d :: d in r.error.missing <==> d in RequiredDevices && d !in devices)
      && (|devices| > 0 && (forall d | d in RequiredDevices :: d in devices) ==>
            var points := Synchronized(devices, RequiredDevices, SyncToleranceSeconds);
            (r.Ok? <==> |points| >= MinimumPoints)
            && (r.Err? ==> r == Err(InsufficientData(|points|))))
  {
    var m := MissingFrom(RequiredDevices, devices.Keys);
    if |m| > 0 {
      assert m[0] in m;
    }
  }

  /** A successful analysis has one row per point, in strictly increasing time order, with room minus intake. */
  lemma VentilationAnalysisRows(devices: map<string, seq<Record>>)
    requires VentilationAnalysis(devices).Ok?
    ensures var rows := VentilationAnalysis(devices).value;
      |rows| >= MinimumPoints
      && (forall i, j | 0 <= i < j < |rows| :: rows[i].timestamp < rows[j].timestamp)
      && (forall i | 0 <= i < |rows| :: rows[i].difference == rows[i].room - rows[i].intake)
  {
    var points := Synchronized(devices, RequiredDevices, SyncToleranceSeconds);
    SynchronizedKeys(devices, RequiredDevices, SyncToleranceSeconds);
    assert VentilationAnalysis(devices).value == DifferenceRows(points);
    SynchronizedIncreasing(devices, RequiredDevices, SyncToleranceSeconds);
  }
}
