// Daily heating statistics: the days on which both the internal and the
// external thermometer have readings, the number of heating cycles started on
// each day, and the two joined on the date (days without cycles counting 0).

module HeatingStatistics {
  import opened Text
  import Sorting
  import HeatingCycles

  type Sample = HeatingCycles.Sample
  type Reported = HeatingCycles.Reported
  type DayValue = HeatingCycles.DayValue

  const InternalTempDevice: string := "T3_Kek"
  const ExternalTempDevice: string := "T2_Terasz"
  const HeatingZoneDevice: string := "T6_Z2"

  datatype StatError = DeviceNotFound(name: string)

  /** The sum and the number of one device's readings on a date; their quotient is the daily mean. */
  datatype DayMean = DayMean(sum: int, count: nat)

  /** A row of the temperature-difference table: the two daily means on a date both devices share. */
  datatype DiffRow = DiffRow(day: int, internal: DayMean, external: DayMean)

  /** A row of the joined table. */
  datatype MergedRow = MergedRow(day: int, internal: DayMean, external: DayMean, cycleCount: int)

  function ReadingDays(s: seq<Sample>): (r: seq<int>)
    ensures |r| == |s| && forall k | 0 <= k < |s| :: r[k] == HeatingCycles.Day(s[k].timestamp)
  {
    seq(|s|, k requires 0 <= k < |s| => HeatingCycles.Day(s[k].timestamp))
  }

  /** The sum and count of the readings dated `d`. */
  function MeanOn(s: seq<Sample>, d: int): (m: DayMean)
    ensures m.count > 0 <==> d in ReadingDays(s)
  {
    if |s| == 0 then DayMean(0, 0)
    else
      var front, x := s[..|s| - 1], s[|s| - 1];
      var m := MeanOn(front, d);
      assert ReadingDays(s) == ReadingDays(front) + [HeatingCycles.Day(x.timestamp)];
      if HeatingCycles.Day(x.timestamp) == d then DayMean(m.sum + x.temperature, m.count + 1) else m
  }

  /** The elements of `xs` that are also in `ys`, in order. */
  function KeepIn(xs: seq<int>, ys: seq<int>): (r: seq<int>)
    ensures forall x :: x in r <==> x in xs && x in ys
  {
    if |xs| == 0 then []
    else
      var front := xs[..|xs| - 1];
      assert xs == front + [xs[|xs| - 1]];
      KeepIn(front, ys) + if xs[|xs| - 1] in ys then [xs[|xs| - 1]] else []
  }

  /**
   * `_calculate_daily_mean_temp_difference` up to the means themselves: a
   * missing device is an error, a device without readings gives no rows,
   * otherwise one row per date both devices have readings on, by date.
   */
  function DailyMeanTempDifference(db: map<string, seq<Sample>>): Result<seq<DiffRow>, StatError>
  {
    if InternalTempDevice !in db then Err(DeviceNotFound(InternalTempDevice))
    else if ExternalTempDevice !in db then Err(DeviceNotFound(ExternalTempDevice))
    else
      var a, b := db[InternalTempDevice], db[ExternalTempDevice];
      if |a| == 0 || |b| == 0 then Ok([])
      else
        var days := Sorting.DistinctSorted(KeepIn(ReadingDays(a), ReadingDays(b)));
        Ok(seq(|days|, i requires 0 <= i < |days| => DiffRow(days[i], MeanOn(a, days[i]), MeanOn(b, days[i]))))
  }

  /** The table is an inner join on the date: exactly the shared dates, ascending, each with readings on both sides. */
  lemma DailyMeanTempDifferenceProperties(db: map<string, seq<Sample>>)
    ensures DailyMeanTempDifference(db).Err? <==> InternalTempDevice !in db || ExternalTempDevice !in db
    ensures DailyMeanTempDifference(db).Ok? ==>
      var rows := DailyMeanTempDifference(db).value;
      var a, b := db[InternalTempDevice], db[ExternalTempDevice];
      (forall i, j | 0 <= i < j < |rows| :: rows[i].day < rows[j].day)
      && (forall d :: (exists i | 0 <= i < |rows| :: rows[i].day == d) <==> d in ReadingDays(a) && d in ReadingDays(b))
      && (forall i | 0 <= i < |rows| :: rows[i].internal.count > 0 && rows[i].external.count > 0)
  {
    var r := DailyMeanTempDifference(db);
    if r.Ok? {
      var a, b := db[InternalTempDevice], db[ExternalTempDevice];
      var rows := r.value;
      if |a| > 0 && |b| > 0 {
        var days := Sorting.DistinctSorted(KeepIn(ReadingDays(a), ReadingDays(b)));
        forall d ensures (exists i | 0 <= i < |rows| :: rows[i].day == d) <==> d in ReadingDays(a) && d in ReadingDays(b) {
          if d in ReadingDays(a) && d in ReadingDays(b) {
            assert d in days;
            var i :| 0 <= i < |days| && days[i] == d;
            assert rows[i].day == d;
          }
        }
      } else {
        if |a| == 0 { assert ReadingDays(a) == []; } else { assert ReadingDays(b) == []; }
      }
    }
  }

  /** The cycle-count table: one row per day on which cycles started, by date. */
  function CycleCountRows(cs: seq<Reported>): (rows: seq<DayValue>)
  {
    var days := Sorting.DistinctSorted(HeatingCycles.StartDaySeq(cs));
    seq(|days|, i requires 0 <= i < |days| => HeatingCycles.DayValue(days[i], HeatingCycles.TallyOn(cs, days[i], HeatingCycles.One)))
  }

  /** Each start date once, ascending, with a positive count that is the number of cycles started on it. */
  lemma CycleCountRowsProperties(cs: seq<Reported>)
    ensures forall i, j | 0 <= i < j < |CycleCountRows(cs)| :: CycleCountRows(cs)[i].day < CycleCountRows(cs)[j].day
    ensures forall d :: (exists i | 0 <= i < |CycleCountRows(cs)| :: CycleCountRows(cs)[i].day == d) <==> d in HeatingCycles.StartDays(cs)
    ensures forall i | 0 <= i < |CycleCountRows(cs)| :: CycleCountRows(cs)[i].value > 0
    ensures |cs| == 0 ==> CycleCountRows(cs) == []
  {
    var rows := CycleCountRows(cs);
    var days := Sorting.DistinctSorted(HeatingCycles.StartDaySeq(cs));
    forall d ensures d in days <==> d in HeatingCycles.StartDays(cs) {
      if d in HeatingCycles.StartDays(cs) {
        var k :| 0 <= k < |cs| && HeatingCycles.StartDay(cs[k]) == d;
        assert HeatingCycles.StartDaySeq(cs)[k] == d;
      }
    }
    forall d ensures (exists i | 0 <= i < |rows| :: rows[i].day == d) <==> d in days {
      if d in days {
        var i :| 0 <= i < |days| && days[i] == d;
        assert rows[i].day == d;
      }
    }
    forall i | 0 <= i < |rows| ensures rows[i].value > 0 {
      HeatingCycles.CountPositive(cs, days[i]);
    }
    if |cs| == 0 {
      assert HeatingCycles.StartDaySeq(cs) == [];
    }
  }

  /** `_calculate_daily_heating_cycle_count`: the counting loop, then the rows in date order. */
  method DailyHeatingCycleCount(cycles: map<string, seq<Reported>>) returns (rows: seq<DayValue>)
    ensures rows == CycleCountRows(if HeatingZoneDevice in cycles then cycles[HeatingZoneDevice] else [])
  {
    var cs := if HeatingZoneDevice in cycles then cycles[HeatingZoneDevice] else [];
    if |cs| == 0 {
      assert HeatingCycles.StartDaySeq(cs) == [];
      return [];
    }
    var counts := HeatingCycles.CyclesPerDay(cs);
    var days := Sorting.DistinctSorted(HeatingCycles.StartDaySeq(cs));
    forall i | 0 <= i < |days| ensures days[i] in counts {
      assert days[i] in days;
      assert days[i] in HeatingCycles.StartDaySeq(cs);
      var k :| 0 <= k < |cs| && HeatingCycles.StartDaySeq(cs)[k] == days[i];
      assert HeatingCycles.StartDay(cs[k]) == days[i];
    }
    rows := seq(|days|, i requires 0 <= i < |days| => HeatingCycles.DayValue(days[i], counts[days[i]]));
  }

  /** A left-join lookup: the value of the first row dated `d`, 0 when there is none. */
  function CountFor(rows: seq<DayValue>, d: int): int
  {
    if |rows| == 0 then 0 else if rows[0].day == d then rows[0].value else CountFor(rows[1..], d)
  }

  lemma {:induction false} CountForAt(rows: seq<DayValue>, i: nat, d: int)
    requires i < |rows| && rows[i].day == d && forall j | 0 <= j < i :: rows[j].day != d
    ensures CountFor(rows, d) == rows[i].value
  {
    if i > 0 { CountForAt(rows[1..], i - 1, d); }
  }

  lemma {:induction false} CountForMissing(rows: seq<DayValue>, d: int)
    requires forall j | 0 <= j < |rows| :: rows[j].day != d
    ensures CountFor(rows, d) == 0
  {
    if |rows| > 0 { CountForMissing(rows[1..], d); }
  }

  /** Looking a day up in the cycle-count table gives that day's number of cycles, 0 on a day without any. */
  lemma CountForCycles(cs: seq<Reported>, d: int)
    ensures CountFor(CycleCountRows(cs), d) == HeatingCycles.TallyOn(cs, d, HeatingCycles.One)
  {
    CycleCountRowsProperties(cs);
    var rows := CycleCountRows(cs);
    if i :| 0 <= i < |rows| && rows[i].day == d {
      CountForAt(rows, i, d);
    } else {
      CountForMissing(rows, d);
      HeatingCycles.TallyAbsent(cs, d, HeatingCycles.One);
    }
  }

  /**
   * `_merge_daily_data`: no temperature rows give no rows; otherwise every
   * temperature row, in order, with its day's count, 0 when the count table
   * is empty or lacks the day.
   */
  function MergeDailyData(diff: seq<DiffRow>, counts: seq<DayValue>): (r: seq<MergedRow>)
    ensures |r| == |diff|
    ensures forall i | 0 <= i < |r| :: r[i].day == diff[i].day && r[i].internal == diff[i].internal && r[i].external == diff[i].external
  {
    if |diff| == 0 then []
    else if |counts| == 0 then
      seq(|diff|, i requires 0 <= i < |diff| => MergedRow(diff[i].day, diff[i].internal, diff[i].external, 0))
    else
      seq(|diff|, i requires 0 <= i < |diff| => MergedRow(diff[i].day, diff[i].internal, diff[i].external, CountFor(counts, diff[i].day)))
  }

  /**
   * Joined with the cycle-count table, each temperature day carries exactly
   * the number of cycles started on it; cycles on other days are dropped.
   */
  lemma MergeDailyDataCounts(diff: seq<DiffRow>, cs: seq<Reported>)
    ensures forall i | 0 <= i < |diff| ::
      MergeDailyData(diff, CycleCountRows(cs))[i].cycleCount == HeatingCycles.TallyOn(cs, diff[i].day, HeatingCycles.One)
  {
    var r := MergeDailyData(diff, CycleCountRows(cs));
    forall i | 0 <= i < |diff|
      ensures r[i].cycleCount == HeatingCycles.TallyOn(cs, diff[i].day, HeatingCycles.One)
    {
      CountForCycles(cs, diff[i].day);
      if |CycleCountRows(cs)| == 0 {
        CountForMissing(CycleCountRows(cs), diff[i].day);
      }
    }
  }
}
