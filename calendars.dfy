// Calendar matrices: one row per day of a device's date range, one column per
// 5-minute slot of the day (288 of them). Temperature calendars hold the
// latest reading of each slot or nothing; the heating calendar holds 1 in
// every slot a heating cycle passes through and 0 elsewhere; the difference
// calendar subtracts two temperature calendars where both have a value.

module Calendars {
  import opened Text
  import HeatingCycles

  type Sample = HeatingCycles.Sample

  const SampleIntervalMinutes: int := 5
  const SamplesPerDay: int := 24 * 60 / SampleIntervalMinutes
  const SampleSeconds: int := SampleIntervalMinutes * 60

  const TempDiffDevices: seq<string> := ["T3_Kek", "T2_Terasz"]
  const OutsideDevice: string := "T2_Terasz"

  datatype CalendarError = NoRecords(device: string)

  /** `_get_day_and_sample_index`: days since the first day, and the 5-minute slot of the day. */
  function DayIndex(ts: int, startDay: int): int
  {
    HeatingCycles.Day(ts) - startDay
  }

  function SampleIndex(ts: int): int
  {
    (ts % HeatingCycles.SecondsPerDay) / SampleSeconds
  }

  /** The slot always exists, and the cell's 5 minutes contain the timestamp. */
  lemma CellContains(ts: int, startDay: int)
    ensures SamplesPerDay == 288
    ensures 0 <= SampleIndex(ts) < SamplesPerDay
    ensures var slotStart := (startDay + DayIndex(ts, startDay)) * 86400 + SampleIndex(ts) * SampleSeconds;
      slotStart <= ts < slotStart + SampleSeconds
  {
  }

  /** Two timestamps share a cell exactly when they fall in the same 5-minute slot. */
  lemma SameCell(t1: int, t2: int, startDay: int)
    ensures (DayIndex(t1, startDay) == DayIndex(t2, startDay) && SampleIndex(t1) == SampleIndex(t2))
        <==> t1 / SampleSeconds == t2 / SampleSeconds
  {
    SlotParts(t1);
    SlotParts(t2);
  }

  /** A timestamp's day and slot are the quotient and remainder of its 5-minute slot number by 288. */
  lemma SlotParts(t: int)
    ensures HeatingCycles.Day(t) == (t / SampleSeconds) / 288
    ensures SampleIndex(t) == (t / SampleSeconds) % 288
  {
    var q, r := t / 300, t % 300;
    var a, b := q / 288, q % 288;
    assert t == 86400 * a + (300 * b + r);
    DivModUnique(t, 86400, a, 300 * b + r);
    DivModUnique(300 * b + r, 300, b, r);
  }

  lemma DivModUnique(t: int, n: int, q: int, r: int)
    requires n > 0 && t == n * q + r && 0 <= r < n
    ensures t / n == q && t % n == r
  {
    var q', r' := t / n, t % n;
    assert n * (q - q') == r' - r;
    if q > q' {
      MulAtLeast(n, q - q');
    } else if q < q' {
      MulAtLeast(n, q' - q);
    }
  }

  lemma MulAtLeast(n: int, k: int)
    requires n > 0 && k >= 1
    ensures n * k >= n
  {
  }

  /** `_get_date_range`: the first and last day with readings; no readings is an error. */
  function DateRange(device: string, records: seq<Sample>): (r: Result<(int, int), CalendarError>)
    ensures r.Err? <==> |records| == 0
    ensures r.Ok? ==> r.value.0 <= r.value.1
    ensures r.Ok? ==> forall k | 0 <= k < |records| ::
      r.value.0 <= HeatingCycles.Day(records[k].timestamp) <= r.value.1
    ensures r.Ok? ==> exists k | 0 <= k < |records| :: HeatingCycles.Day(records[k].timestamp) == r.value.0
    ensures r.Ok? ==> exists k | 0 <= k < |records| :: HeatingCycles.Day(records[k].timestamp) == r.value.1
  {
    if |records| == 0 then Err(NoRecords(device))
    else
      var days := seq(|records|, k requires 0 <= k < |records| => HeatingCycles.Day(records[k].timestamp));
      assert forall k | 0 <= k < |records| :: days[k] == HeatingCycles.Day(records[k].timestamp);
      Ok((MinOf(days), MaxOf(days)))
  }

  /** `_create_empty_calendar_matrix`: a row per day of the range, every cell missing. */
  method CreateEmptyCalendar(startDay: int, endDay: int) returns (m: array2<Option<int>>)
    requires startDay <= endDay
    ensures fresh(m) && m.Length0 == endDay - startDay + 1 && m.Length1 == SamplesPerDay
    ensures forall d, s | 0 <= d < m.Length0 && 0 <= s < m.Length1 :: m[d, s] == None
  {
    m := new Option<int>[endDay - startDay + 1, SamplesPerDay]((d, s) => None);
  }

  /** The value the readings leave in cell `(d, s)`: the last reading that falls in it, else `init`. */
  function CellValue(records: seq<Sample>, startDay: int, d: int, s: int, init: Option<int>): Option<int>
  {
    if |records| == 0 then init
    else
      var x := records[|records| - 1];
      if DayIndex(x.timestamp, startDay) == d && SampleIndex(x.timestamp) == s then Some(x.temperature)
      else CellValue(records[..|records| - 1], startDay, d, s, init)
  }

  predicate InCell(x: Sample, startDay: int, d: int, s: int)
  {
    DayIndex(x.timestamp, startDay) == d && SampleIndex(x.timestamp) == s
  }

  /** A cell keeps its initial value when no reading falls in it, and otherwise holds the latest such reading. */
  lemma {:induction false} CellValueLatest(records: seq<Sample>, startDay: int, d: int, s: int, init: Option<int>)
    ensures (forall k | 0 <= k < |records| :: !InCell(records[k], startDay, d, s)) ==> CellValue(records, startDay, d, s, init) == init
    ensures (exists k | 0 <= k < |records| :: InCell(records[k], startDay, d, s)) ==>
      exists k | 0 <= k < |records| :: InCell(records[k], startDay, d, s)
        && CellValue(records, startDay, d, s, init) == Some(records[k].temperature)
        && forall j | k < j < |records| :: !InCell(records[j], startDay, d, s)
  {
    if |records| > 0 {
      var front := records[..|records| - 1];
      CellValueLatest(front, startDay, d, s, init);
      assert forall k | 0 <= k < |front| :: front[k] == records[k];
    }
  }

  /** The fill loop of the temperature calendars: each reading writes its cell when the cell exists. */
  method FillCalendar(m: array2<Option<int>>, records: seq<Sample>, startDay: int)
    modifies m
    ensures forall d, s | 0 <= d < m.Length0 && 0 <= s < m.Length1 ::
      m[d, s] == CellValue(records, startDay, d, s, old(m[d, s]))
  {
    for i := 0 to |records|
      invariant forall d, s | 0 <= d < m.Length0 && 0 <= s < m.Length1 ::
        m[d, s] == CellValue(records[..i], startDay, d, s, old(m[d, s]))
    {
      var x := records[i];
      var di, si := DayIndex(x.timestamp, startDay), SampleIndex(x.timestamp);
      assert records[..i + 1][..i] == records[..i];
      if 0 <= di < m.Length0 && 0 <= si < m.Length1 {
        m[di, si] := Some(x.temperature);
      }
    }
    assert records[..|records|] == records;
  }

  /** `generate_temperature_calendar` (and the outside-temperature one): the latest reading of every slot. */
  method TemperatureCalendar(device: string, records: seq<Sample>) returns (r: Result<array2<Option<int>>, CalendarError>)
    ensures r.Err? <==> |records| == 0
    ensures r.Ok? ==>
      var (first, last) := DateRange(device, records).value;
      fresh(r.value) && r.value.Length0 == last - first + 1 && r.value.Length1 == SamplesPerDay
      && forall d, s | 0 <= d < r.value.Length0 && 0 <= s < r.value.Length1 ::
           r.value[d, s] == CellValue(records, first, d, s, None)
  {
    var range := DateRange(device, records);
    if range.Err? {
      return Err(range.error);
    }
    var (first, last) := range.value;
    var m := CreateEmptyCalendar(first, last);
    FillCalendar(m, records, first);
    r := Ok(m);
  }

  /** Every reading of the device itself lands in an existing cell: none is dropped. */
  lemma RecordsInCalendar(device: string, records: seq<Sample>)
    requires |records| > 0
    ensures var (first, last) := DateRange(device, records).value;
      forall k | 0 <= k < |records| ::
        0 <= DayIndex(records[k].timestamp, first) < last - first + 1 && 0 <= SampleIndex(records[k].timestamp) < SamplesPerDay
  {
  }

  // ---------------------------------------------------------------------
  // Heating calendar
  // ---------------------------------------------------------------------

  /** A heating cycle's start and end timestamps. */
  datatype Window = Window(start: int, end: int)

  /** The `j`-th 5-minute step from `start`. */
  function Tick(start: int, j: nat): int { start + SampleSeconds * j }

  /** The number of steps from the start that are not after the end. */
  function Ticks(c: Window): nat
  {
    if c.end < c.start then 0 else (c.end - c.start) / SampleSeconds + 1
  }

  /** One of the first `n` steps from `start` falls in cell `(d, s)`. */
  predicate MarkedBy(start: int, n: nat, startDay: int, d: int, s: int)
  {
    n > 0 && (MarkedBy(start, n - 1, startDay, d, s)
              || (DayIndex(Tick(start, n - 1), startDay) == d && SampleIndex(Tick(start, n - 1)) == s))
  }

  /** Some cycle passes through cell `(d, s)`. */
  predicate MarkedAny(cycles: seq<Window>, startDay: int, d: int, s: int)
  {
    |cycles| > 0
    && (MarkedAny(cycles[..|cycles| - 1], startDay, d, s)
        || MarkedBy(cycles[|cycles| - 1].start, Ticks(cycles[|cycles| - 1]), startDay, d, s))
  }

  /** A cell is marked by a cycle exactly when one of the cycle's steps falls in it. */
  lemma {:induction false} MarkedByTicks(start: int, n: nat, startDay: int, d: int, s: int)
    ensures MarkedBy(start, n, startDay, d, s) <==>
      exists j | 0 <= j < n :: DayIndex(Tick(start, j), startDay) == d && SampleIndex(Tick(start, j)) == s
  {
    if n > 0 {
      MarkedByTicks(start, n - 1, startDay, d, s);
    }
  }

  /** The steps of a cycle are exactly the times from its start, 5 minutes apart, up to and including its end. */
  lemma TicksWithin(c: Window)
    ensures forall j: nat | j < Ticks(c) :: c.start <= Tick(c.start, j) <= c.end
    ensures c.end < Tick(c.start, Ticks(c))
  {
  }

  /** The marking loop of `generate_heating_calendar`: every 5-minute step of every cycle sets its cell to 1. */
  method MarkHeating(m: array2<int>, cycles: seq<Window>, startDay: int)
    modifies m
    ensures forall d, s | 0 <= d < m.Length0 && 0 <= s < m.Length1 ::
      m[d, s] == if MarkedAny(cycles, startDay, d, s) then 1 else old(m[d, s])
  {
    for i := 0 to |cycles|
      invariant forall d, s | 0 <= d < m.Length0 && 0 <= s < m.Length1 ::
        m[d, s] == if MarkedAny(cycles[..i], startDay, d, s) then 1 else old(m[d, s])
    {
      var c := cycles[i];
      var t := c.start;
      ghost var n: nat := 0;
      while t <= c.end
        invariant t == Tick(c.start, n)
        invariant n <= Ticks(c)
        invariant t <= c.end ==> n < Ticks(c)
        invariant forall d, s | 0 <= d < m.Length0 && 0 <= s < m.Length1 ::
          m[d, s] == if MarkedAny(cycles[..i], startDay, d, s) || MarkedBy(c.start, n, startDay, d, s) then 1 else old(m[d, s])
        decreases c.end - t
      {
        var di, si := DayIndex(t, startDay), SampleIndex(t);
        if 0 <= di < m.Length0 && 0 <= si < m.Length1 {
          m[di, si] := 1;
        }
        t := t + SampleSeconds;
        n := n + 1;
      }
      assert n == Ticks(c);
      assert cycles[..i + 1][..i] == cycles[..i];
    }
    assert cycles[..|cycles|] == cycles;
  }

  /**
   * `generate_heating_calendar`: over the device's date range, 1 in every
   * slot some cycle passes through and 0 elsewhere.
   */
  method HeatingCalendar(device: string, records: seq<Sample>, cycles: seq<Window>) returns (r: Result<array2<int>, CalendarError>)
    ensures r.Err? <==> |records| == 0
    ensures r.Ok? ==>
      var (first, last) := DateRange(device, records).value;
      fresh(r.value) && r.value.Length0 == last - first + 1 && r.value.Length1 == SamplesPerDay
      && forall d, s | 0 <= d < r.value.Length0 && 0 <= s < r.value.Length1 ::
           r.value[d, s] == if MarkedAny(cycles, first, d, s) then 1 else 0
  {
    var range := DateRange(device, records);
    if range.Err? {
      return Err(range.error);
    }
    var (first, last) := range.value;
    var m := new int[last - first + 1, SamplesPerDay]((d, s) => 0);
    MarkHeating(m, cycles, first);
    r := Ok(m);
  }

  // ---------------------------------------------------------------------
  // Temperature-difference calendar
  // ---------------------------------------------------------------------

  /** Defined only where both calendars have a value. */
  function DiffCell(a: Option<int>, b: Option<int>): (r: Option<int>)
    ensures r.Some? <==> a.Some? && b.Some?
    ensures r.Some? ==> r.value + b.value == a.value
  {
    if a.Some? && b.Some? then Some(a.value - b.value) else None
  }

  /** The cell-wise difference of two calendars of the same shape. */
  method Difference(m1: array2<Option<int>>, m2: array2<Option<int>>) returns (diff: array2<Option<int>>)
    requires m1.Length0 == m2.Length0 && m1.Length1 == m2.Length1
    ensures fresh(diff) && diff.Length0 == m1.Length0 && diff.Length1 == m1.Length1
    ensures forall d, s | 0 <= d < diff.Length0 && 0 <= s < diff.Length1 :: diff[d, s] == DiffCell(m1[d, s], m2[d, s])
  {
    diff := new Option<int>[m1.Length0, m1.Length1]((d, s) => None);
    for d := 0 to m1.Length0
      invariant forall d', s | 0 <= d' < d && 0 <= s < diff.Length1 :: diff[d', s] == DiffCell(m1[d', s], m2[d', s])
    {
      for s := 0 to m1.Length1
        invariant forall d', s' | 0 <= d' < d && 0 <= s' < diff.Length1 :: diff[d', s'] == DiffCell(m1[d', s'], m2[d', s'])
        invariant forall s' | 0 <= s' < s :: diff[d, s'] == DiffCell(m1[d, s'], m2[d, s'])
      {
        diff[d, s] := DiffCell(m1[d, s], m2[d, s]);
      }
    }
  }

  /**
   * `generate_temperature_difference_calendar`: both devices' readings over
   * the union of their date ranges, subtracted where both have a value.
   */
  method DifferenceCalendar(records1: seq<Sample>, records2: seq<Sample>) returns (r: Result<array2<Option<int>>, CalendarError>)
    ensures r.Err? <==> |records1| == 0 || |records2| == 0
    ensures r.Err? ==> r.error == NoRecords(if |records1| == 0 then TempDiffDevices[0] else TempDiffDevices[1])
    ensures r.Ok? ==>
      var (first1, last1) := DateRange(TempDiffDevices[0], records1).value;
      var (first2, last2) := DateRange(TempDiffDevices[1], records2).value;
      var first := if first1 < first2 then first1 else first2;
      var last := if last1 > last2 then last1 else last2;
      fresh(r.value) && r.value.Length0 == last - first + 1 && r.value.Length1 == SamplesPerDay
      && forall d, s | 0 <= d < r.value.Length0 && 0 <= s < r.value.Length1 ::
           r.value[d, s] == DiffCell(CellValue(records1, first, d, s, None), CellValue(records2, first, d, s, None))
  {
    var range1 := DateRange(TempDiffDevices[0], records1);
    if range1.Err? {
      return Err(range1.error);
    }
    var range2 := DateRange(TempDiffDevices[1], records2);
    if range2.Err? {
      return Err(range2.error);
    }
    var (first1, last1) := range1.value;
    var (first2, last2) := range2.value;
    var first := if first1 < first2 then first1 else first2;
    var last := if last1 > last2 then last1 else last2;
    var m1 := CreateEmptyCalendar(first, last);
    FillCalendar(m1, records1, first);
    var m2 := CreateEmptyCalendar(first, last);
    FillCalendar(m2, records2, first);
    var diff := Difference(m1, m2);
    r := Ok(diff);
  }
}
