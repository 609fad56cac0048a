# Verified model of the data-processing cores of `learning_ai`

This project models, in Dafny, the in-memory data processing of four small
programs in one repository, and proves properties of that model:

- **TemperatureMonitoring** (Python). Thermometer CSV exports are parsed, merged and deduplicated
  (`temperature_processor.dfy`), imported into a JSON database with hash-based
  deduplication (`data_importer.dfy`), and joined by gas-meter readings
  (`gasmeter_loader.dfy`). Over that database the project models the
  active-interval report and the cross-device synchroniser
  (`temperature_statistics.dfy`), heating-cycle detection, merging and the
  per-day tables (`heating_cycles.dfy`), the daily heating statistics
  (`heating_statistics.dfy`) and the 5-minute calendar matrices
  (`calendars.dfy`).
- **LogAnalyzer** (C#): the log-line recogniser and parser with its exact
  round trip, reading a file's valid lines, level filtering and counting,
  per-user counts, and the distinct IPv4 and e-mail addresses the service's
  regular expressions find (`log_analyzer.dfy`).
- **ProjectLabAdmin** (Python): the workbook loaders with their file-name
  parsing and allowed-course filters (`data_loaders.dfy`), the two student
  fusion engines (`data_fusion.dfy`, `dlfusion_processor.dfy`; the program
  keeps them as two separate classes over different record types, with
  different course dedup and output order, so their Neptun-code projections
  and dictionary definitions are defined once per engine), the
  session-planner statistics and layout (`excel_components.dfy`,
  `mkxlsx_creator.dfy`), the course-table recognition of the enrolment page
  (`course_identification.dfy`) and the topic-page text extraction
  (`topic_scraper.dfy`).
- **BillSummarizer** (Python): keyword and pattern extraction of a bill's
  amount, date, provider and address, with date and amount normalisation and
  the uncertainty flag (`bill_extractor.dfy`).

Shared vocabulary lives in `text.dfy` (Option/Result, Python and .NET string
operations), `numbers.dfy` (Python's `int()`/`float()` on decimal literals)
and `sorting.dfy` (stable sort by key, the "seen set" pass, counting by key).

Conventions:
- Timestamps are integer seconds of naive wall-clock time. A date is a day
  number (`timestamp / 86400`).
- Temperatures in the heating and calendar code are integers in tenths of a
  degree. Parsed CSV values are exact reals.
- Durations are integer seconds or minutes.
- Excel sheets, JSON documents and web pages are given as values: rows of
  cell texts, records with optional fields, page text.
- State the source mutates is a class (`DataFusionProcessor`,
  `StatisticsCalculator`, `SessionPlannerCreator`, `Importer`, `Loader`).
  Loops become methods proved against specification functions.

## Model

| member | source | states |
|---|---|---|
| TemperatureStatistics.CountInRange | TemperatureMonitoring/src/temperature_statistics.py:133-135 | the number of timestamps with `start <= t <= end`, never more than there are timestamps |
| TemperatureStatistics.CountInRangeConcat | TemperatureMonitoring/src/temperature_statistics.py:133-135 | counting over a concatenation adds the counts of the parts |
| TemperatureStatistics.CountBlock | TemperatureMonitoring/src/temperature_statistics.py:133-135 | in sorted timestamps, a run whose outside neighbours are strictly smaller and larger is counted exactly by its own first and last value |
| TemperatureStatistics.ExpectedRecordsAtLeastOne | TemperatureMonitoring/src/temperature_statistics.py:120-122 | `expected_records` is the floor of the duration over the interval length, plus one, so at least 1 |
| TemperatureStatistics.CompletenessDivisor | TemperatureMonitoring/src/temperature_statistics.py:123-126 | the completeness divisor `max(1, expected_records)` is at least 1 and at least the expected count, and equals it when that is positive |
| TemperatureStatistics.BreaksToProperties | TemperatureMonitoring/src/temperature_statistics.py:84-92 | the positions where a new interval starts are increasing, each follows a gap wider than `max_gap`, and every such gap is among them |
| TemperatureStatistics.BoundsValid | TemperatureMonitoring/src/temperature_statistics.py:82-111 | the interval boundaries start at 0, end at the number of timestamps and increase strictly |
| TemperatureStatistics.BoundsAtGaps | TemperatureMonitoring/src/temperature_statistics.py:87-92 | every inner boundary sits right after a gap wider than `max_gap` |
| TemperatureStatistics.GapsAtBounds | TemperatureMonitoring/src/temperature_statistics.py:87-92 | every gap wider than `max_gap` is a boundary |
| TemperatureStatistics.SegmentStep | TemperatureMonitoring/src/temperature_statistics.py:87-104 | one loop step: a gap of at most `max_gap` keeps the open interval and the closed ones; a wider gap closes the open interval and opens one at the current timestamp |
| TemperatureStatistics.SegmentEnd | TemperatureMonitoring/src/temperature_statistics.py:106-111 | after the walk the still open interval is appended as the last one |
| TemperatureStatistics.SegmentTimestamps | TemperatureMonitoring/src/temperature_statistics.py:82-111 | the segmentation loop returns exactly the intervals of the boundary definition |
| TemperatureStatistics.IntervalAt | TemperatureMonitoring/src/temperature_statistics.py:95-111 | the k-th interval covers the positions between the k-th and the next boundary |
| TemperatureStatistics.NeighbourGap | TemperatureMonitoring/src/temperature_statistics.py:87-92 | neighbouring intervals are separated by more than `max_gap` |
| TemperatureStatistics.IntervalsShape | TemperatureMonitoring/src/temperature_statistics.py:82-111 | there is at least one interval; the first starts at the first timestamp and the last ends at the last; neighbours are more than `max_gap` apart; each record count is the count of timestamps in its range |
| TemperatureStatistics.IntervalsSplitExactlyAtGaps | TemperatureMonitoring/src/temperature_statistics.py:82-111 | the intervals are the runs between consecutive boundaries, and a position starts a new interval iff the gap before it exceeds `max_gap` |
| TemperatureStatistics.IntervalsOrdered | TemperatureMonitoring/src/temperature_statistics.py:76-111 | over sorted timestamps each interval runs forward; with a non-negative gap they are disjoint and ordered; with a positive interval length each expects at least one record |
| TemperatureStatistics.TotalRecordsCoversAll | TemperatureMonitoring/src/temperature_statistics.py:95-111 | the record counts of the intervals add up to the number of timestamps |
| TemperatureStatistics.SingleInterval | TemperatureMonitoring/src/temperature_statistics.py:82-111 | timestamps never more than `max_gap` apart form a single interval holding all of them |
| TemperatureStatistics.TwelveReadingsOneInterval | TemperatureMonitoring/src/temperature_statistics.py:36-131 | twelve readings five minutes apart with the default 35-minute gap give one interval of 12 records and 12 expected |
| TemperatureStatistics.ValidTimestamps | TemperatureMonitoring/src/temperature_statistics.py:66-74 | the parseable timestamps, no more than there are records |
| TemperatureStatistics.SortedTimestamps | TemperatureMonitoring/src/temperature_statistics.py:66-76 | the parseable timestamps sorted: ordered and a permutation of them |
| TemperatureStatistics.ActiveTimeIntervalsReport | TemperatureMonitoring/src/temperature_statistics.py:36-131 | the report has an entry for every device and no other; it is empty iff the device has no parseable timestamp; the record counts cover every timestamp; the first interval starts at the earliest one |
| TemperatureStatistics.DeviceReadings | TemperatureMonitoring/src/temperature_statistics.py:291-311 | a device's usable readings, all tagged with that device, at most one per record |
| TemperatureStatistics.CollectedDevices | TemperatureMonitoring/src/temperature_statistics.py:291-311 | every collected reading belongs to a requested device that exists |
| TemperatureStatistics.CollectReadings | TemperatureMonitoring/src/temperature_statistics.py:291-311 | the collection loop returns exactly the usable readings of the named existing devices, device after device |
| TemperatureStatistics.Stream | TemperatureMonitoring/src/temperature_statistics.py:313 | the merged stream is sorted by timestamp and a permutation of the collected readings |
| TemperatureStatistics.WindowsSnoc | TemperatureMonitoring/src/temperature_statistics.py:321-335 | one more reading joins the open window or opens a new one |
| TemperatureStatistics.WindowsPartition | TemperatureMonitoring/src/temperature_statistics.py:318-340 | every window is non-empty and the windows, in order, are exactly the stream |
| TemperatureStatistics.WindowsWithinTolerance | TemperatureMonitoring/src/temperature_statistics.py:325-326 | every reading of a window is at most the tolerance after the window's first reading |
| TemperatureStatistics.WindowsSeparated | TemperatureMonitoring/src/temperature_statistics.py:325-335 | each window after the first starts more than the tolerance after the previous window's start |
| TemperatureStatistics.LatestKeys | TemperatureMonitoring/src/temperature_statistics.py:359-371 | a device is kept iff it has a reading in the window |
| TemperatureStatistics.LatestOf | TemperatureMonitoring/src/temperature_statistics.py:359-371 | the kept reading of a device is one with its greatest timestamp, the first seen among equally late ones |
| TemperatureStatistics.TimestampsOf | TemperatureMonitoring/src/temperature_statistics.py:357-362 | the window's timestamps, position by position |
| TemperatureStatistics.MidWithinSpan | TemperatureMonitoring/src/temperature_statistics.py:377-378 | the window's mid timestamp lies between its earliest and its latest reading |
| TemperatureStatistics.WindowPointPresent | TemperatureMonitoring/src/temperature_statistics.py:373-375 | a window yields a point iff every required device has a reading in it |
| TemperatureStatistics.PointValue | TemperatureMonitoring/src/temperature_statistics.py:364-383 | a required device's value is the temperature of its latest reading, the first seen among equally late ones |
| TemperatureStatistics.WindowPointProperties | TemperatureMonitoring/src/temperature_statistics.py:344-384 | a point holds exactly the required devices, each with its latest reading's temperature, at a time within the window's span |
| TemperatureStatistics.LatestMapStep | TemperatureMonitoring/src/temperature_statistics.py:359-371 | one reading of the window loop replaces a device's kept reading only when strictly later |
| TemperatureStatistics.ProcessTimeWindow | TemperatureMonitoring/src/temperature_statistics.py:344-384 | the window loop returns exactly the window's point, or none when a required device is absent |
| TemperatureStatistics.SamplesSnoc | TemperatureMonitoring/src/temperature_statistics.py:328-340 | closing one more window appends its point when it has one |
| TemperatureStatistics.SyncStep | TemperatureMonitoring/src/temperature_statistics.py:321-335 | one reading of the synchroniser loop: it joins the open window within the tolerance, else closes it and opens a new one |
| TemperatureStatistics.GroupWindows | TemperatureMonitoring/src/temperature_statistics.py:318-340 | the window loop returns exactly the points of the stream's windows, the last window included |
| TemperatureStatistics.SynchronizeDeviceData | TemperatureMonitoring/src/temperature_statistics.py:274-342 | collect, sort, group: exactly the synchronised points, none without readings |
| TemperatureStatistics.StreamSorted | TemperatureMonitoring/src/temperature_statistics.py:313 | the merged stream is in timestamp order |
| TemperatureStatistics.WindowsAscending | TemperatureMonitoring/src/temperature_statistics.py:313-340 | over a sorted stream the windows follow one another in time and each starts with its earliest reading |
| TemperatureStatistics.SamplesIncreasing | TemperatureMonitoring/src/temperature_statistics.py:318-340 | ascending windows give points in strictly increasing time order |
| TemperatureStatistics.SynchronizedIncreasing | TemperatureMonitoring/src/temperature_statistics.py:274-342 | the synchronised points are strictly increasing in time, so the later sort changes nothing |
| TemperatureStatistics.SamplesKeys | TemperatureMonitoring/src/temperature_statistics.py:373-383 | every point holds exactly the required devices |
| TemperatureStatistics.SynchronizedKeys | TemperatureMonitoring/src/temperature_statistics.py:274-342 | every synchronised point holds exactly the requested devices |
| TemperatureStatistics.MissingFrom | TemperatureMonitoring/src/temperature_statistics.py:205 | a device is reported missing iff it is required and absent |
| TemperatureStatistics.DifferenceRows | TemperatureMonitoring/src/temperature_statistics.py:227-242 | one row per point at the point's time, with the difference room minus intake |
| TemperatureStatistics.VentilationAnalysisGuards | TemperatureMonitoring/src/temperature_statistics.py:186-216 | no devices, a missing required device (naming exactly the missing ones) or fewer than 10 points is an error; otherwise the analysis succeeds |
| TemperatureStatistics.VentilationAnalysisRows | TemperatureMonitoring/src/temperature_statistics.py:213-242 | a successful analysis has at least 10 rows in strictly increasing time order, each with room minus intake |
| HeatingCycles.GetDeviceData | TemperatureMonitoring/detect_heating.py:57-82 | an unknown device is an error, and only then; otherwise its readings sorted by time, a permutation of the stored ones |
| HeatingCycles.MinOn | TemperatureMonitoring/detect_heating.py:84-93 | a date has a minimum iff some reading is dated on it; the minimum is no higher than any of that date's readings and is one of them |
| HeatingCycles.DailyMinimumsProperties | TemperatureMonitoring/detect_heating.py:84-93 | every reading's date has a minimum no higher than the reading, and each minimum is some reading of its date |
| HeatingCycles.MaxOverBounds | TemperatureMonitoring/detect_heating.py:128-131 | the running maximum is at least every reading it covers and equals one of them |
| HeatingCycles.RunStructured | TemperatureMonitoring/detect_heating.py:111-157 | after any number of readings the closed cycles lie inside the readings seen, each ends after it starts, they follow one another, and an open cycle starts after them |
| HeatingCycles.RunMaxima | TemperatureMonitoring/detect_heating.py:127-131 | every closed cycle's maximum is the highest reading it covers, and while heating the running maximum is the highest reading since the open cycle's start |
| HeatingCycles.RunStarts | TemperatureMonitoring/detect_heating.py:120-126 | every cycle starts at a reading at least 5 degrees above its date's minimum |
| HeatingCycles.RunCloses | TemperatureMonitoring/detect_heating.py:137-157 | every closed cycle ends at the first reading at least 1 degree below its running maximum |
| HeatingCycles.RunIdleBelow | TemperatureMonitoring/detect_heating.py:114-126 | every reading outside the cycles is below its date's heating threshold |
| HeatingCycles.RawSpansShape | TemperatureMonitoring/detect_heating.py:95-172 | the detected cycles lie inside the readings, each starting no later than it ends, and follow one another |
| HeatingCycles.RawSpansMaxima | TemperatureMonitoring/detect_heating.py:127-170 | each cycle's maximum is the highest reading it covers, and no reading before its end fell 1 degree below the running maximum |
| HeatingCycles.RawSpansEnds | TemperatureMonitoring/detect_heating.py:137-170 | each cycle ends at a reading 1 degree below its maximum, except a cycle still open at the end, which ends at the last reading |
| HeatingCycles.RawSpansStarts | TemperatureMonitoring/detect_heating.py:120-126 | each cycle starts at a reading at least 5 degrees above its date's minimum |
| HeatingCycles.RawSpansIdle | TemperatureMonitoring/detect_heating.py:114-170 | every reading before, between and after the cycles is below its date's threshold |
| HeatingCycles.RawCycles | TemperatureMonitoring/detect_heating.py:95-172 | one cycle per detected span, starting and ending at the timestamps of the span's first and last reading and carrying its peak temperature |
| HeatingCycles.RawCyclesOrdered | TemperatureMonitoring/detect_heating.py:95-172 | over time-sorted readings every cycle runs forward, its duration is end minus start, and each ends no later than the next starts |
| HeatingCycles.DetectRawCycles | TemperatureMonitoring/detect_heating.py:95-172 | the detection loop returns exactly the cycles of the state machine |
| HeatingCycles.Absorb | TemperatureMonitoring/detect_heating.py:186-191 | merging keeps the start, takes the next cycle's end, recomputes the duration and keeps the higher maximum |
| HeatingCycles.Merged | TemperatureMonitoring/detect_heating.py:174-200 | merging yields no cycles iff there were none, and never more than there were |
| HeatingCycles.MergedEnds | TemperatureMonitoring/detect_heating.py:174-200 | the merged list starts where the first cycle starts and ends where the last one ends |
| HeatingCycles.MergedCount | TemperatureMonitoring/detect_heating.py:174-200 | one merged cycle per gap longer than 15 minutes, plus one |
| HeatingCycles.MergedApart | TemperatureMonitoring/detect_heating.py:183-195 | after merging every gap between consecutive cycles is longer than 15 minutes |
| HeatingCycles.ApartUnchanged | TemperatureMonitoring/detect_heating.py:174-200 | cycles already more than 15 minutes apart are left as they are |
| HeatingCycles.MergedIdempotent | TemperatureMonitoring/detect_heating.py:174-200 | merging twice is merging once |
| HeatingCycles.MergedChronological | TemperatureMonitoring/detect_heating.py:174-200 | chronological cycles stay chronological after merging |
| HeatingCycles.MergeStepLast | TemperatureMonitoring/detect_heating.py:183-195 | a cycle within 15 minutes of the current one extends it; a later one closes it and becomes current |
| HeatingCycles.MergeCycles | TemperatureMonitoring/detect_heating.py:174-200 | the merging loop returns exactly the merged list |
| HeatingCycles.RoundMinutes | TemperatureMonitoring/detect_heating.py:231 | seconds rounded to whole minutes are within half a minute of the exact value, and exact for whole minutes |
| HeatingCycles.DetectHeatingCyclesProperties | TemperatureMonitoring/detect_heating.py:202-233 | an unknown device is an error and only then; fewer than two readings give no cycles; reported cycles run forward and are more than 15 minutes apart |
| HeatingCycles.ReportedOrdered | TemperatureMonitoring/detect_heating.py:215-233 | reported cycles run forward and are more than 15 minutes apart |
| HeatingCycles.TotalOne | TemperatureMonitoring/detect_heating.py:278-288 | counting one per cycle totals the number of cycles |
| HeatingCycles.CountPositive | TemperatureMonitoring/detect_heating.py:278-288 | a day has a positive count iff some cycle started on it |
| HeatingCycles.CyclesPerDay | TemperatureMonitoring/detect_heating.py:278-288 | the loop's keys are exactly the cycles' start days, each mapped to the number of cycles started on it |
| HeatingCycles.DurationPerDay | TemperatureMonitoring/detect_heating.py:313-325 | the loop's keys are exactly the start days, each mapped to the minutes of the cycles started on it |
| HeatingCycles.TallyAbsent | TemperatureMonitoring/detect_heating.py:290-348 | a day no cycle started on gets zero |
| HeatingCycles.FullDateRange | TemperatureMonitoring/detect_heating.py:267-276 | empty for no cycles; otherwise consecutive days from the earliest start day to the latest, covering every start day |
| HeatingCycles.TableTotal | TemperatureMonitoring/detect_heating.py:290-348 | a table covering every start day sums to the total over all cycles |
| HeatingCycles.CompleteTable | TemperatureMonitoring/detect_heating.py:290-348 | one row per day of the full range, that day's tally, zero where nothing started |
| HeatingCycles.CompleteTableTotal | TemperatureMonitoring/detect_heating.py:290-348 | the complete table adds up to every cycle: their count or their minutes |
| HeatingStatistics.ReadingDays | TemperatureMonitoring/heating_statistics.py:58-79 | the date of every reading, position by position |
| HeatingStatistics.MeanOn | TemperatureMonitoring/heating_statistics.py:68-104 | a date's reading count is positive iff some reading is dated on it |
| HeatingStatistics.KeepIn | TemperatureMonitoring/heating_statistics.py:106-111 | a date is kept iff it is in both tables |
| HeatingStatistics.DailyMeanTempDifferenceProperties | TemperatureMonitoring/heating_statistics.py:58-121 | a missing device is an error and only then; otherwise the rows are an inner join on the date: exactly the shared dates, ascending, each with readings on both sides |
| HeatingStatistics.CycleCountRowsProperties | TemperatureMonitoring/heating_statistics.py:123-148 | each start date once, ascending, with a positive count; no cycles give no rows |
| HeatingStatistics.DailyHeatingCycleCount | TemperatureMonitoring/heating_statistics.py:123-148 | the counting loop returns exactly the date-ordered count table of the heating zone, empty when the zone has no cycles |
| HeatingStatistics.CountForAt | TemperatureMonitoring/heating_statistics.py:166-170 | the left join takes the first row dated that day |
| HeatingStatistics.CountForMissing | TemperatureMonitoring/heating_statistics.py:166-170 | a day missing from the count table gets 0 |
| HeatingStatistics.CountForCycles | TemperatureMonitoring/heating_statistics.py:123-170 | looking a day up in the count table gives the number of cycles started on it, 0 on a day without any |
| HeatingStatistics.MergeDailyData | TemperatureMonitoring/heating_statistics.py:150-175 | every temperature row, in order, with its date and both means kept |
| HeatingStatistics.MergeDailyDataCounts | TemperatureMonitoring/heating_statistics.py:150-175 | joined with the count table, each temperature day carries exactly the number of cycles started on it |
| Calendars.CellContains | TemperatureMonitoring/generate_calendars.py:77-86 | every timestamp has a slot in 0..287, and the cell's 5 minutes contain the timestamp |
| Calendars.SameCell | TemperatureMonitoring/generate_calendars.py:77-86 | two timestamps share a cell iff they fall in the same 5-minute slot |
| Calendars.SlotParts | TemperatureMonitoring/generate_calendars.py:77-86 | a timestamp's day and slot are the quotient and remainder of its slot number by 288 |
| Calendars.DateRange | TemperatureMonitoring/generate_calendars.py:58-69 | no records is an error and only then; otherwise the earliest and the latest day of a reading: both are days of some reading, and every reading's day lies between them |
| Calendars.CreateEmptyCalendar | TemperatureMonitoring/generate_calendars.py:71-75 | a fresh matrix of one row per day of the range and 288 columns, every cell missing |
| Calendars.CellValueLatest | TemperatureMonitoring/generate_calendars.py:97-103 | a cell no reading falls in keeps its value; otherwise it holds the last reading that falls in it |
| Calendars.FillCalendar | TemperatureMonitoring/generate_calendars.py:97-103 | after the fill loop every cell holds the last reading that falls in it, or its old value |
| Calendars.TemperatureCalendar | TemperatureMonitoring/generate_calendars.py:88-122 | no records is an error; otherwise a fresh calendar over the device's date range holding each slot's latest reading |
| Calendars.RecordsInCalendar | TemperatureMonitoring/generate_calendars.py:97-103 | every reading of the device lands in an existing cell, so the bounds test drops none |
| Calendars.MarkedByTicks | TemperatureMonitoring/generate_calendars.py:136-143 | a cell is marked by a cycle iff one of its 5-minute steps falls in the cell |
| Calendars.TicksWithin | TemperatureMonitoring/generate_calendars.py:136-143 | the steps of a cycle are the times from its start, 5 minutes apart, up to and including its end |
| Calendars.MarkHeating | TemperatureMonitoring/generate_calendars.py:131-143 | after the marking loop a cell is 1 iff some cycle passes through it, else keeps its value |
| Calendars.HeatingCalendar | TemperatureMonitoring/generate_calendars.py:124-165 | no records is an error; otherwise a fresh calendar over the date range, 1 where some cycle passes and 0 elsewhere |
| Calendars.DiffCell | TemperatureMonitoring/generate_calendars.py:205-209 | a difference cell has a value iff both calendars do, and it is the first minus the second |
| Calendars.Difference | TemperatureMonitoring/generate_calendars.py:205-209 | a fresh matrix of the same shape holding the cell-wise difference |
| Calendars.DifferenceCalendar | TemperatureMonitoring/generate_calendars.py:167-226 | either device without records is an error naming the first such device; otherwise a calendar over the union of both date ranges, the difference where both have a reading |
| TemperatureProcessor.CsvTimestamp | TemperatureMonitoring/src/temperature_processor.py:120-143 | the value truncated to whole seconds is accepted iff it lies in the 2000–2100 range; the result is that truncation; a rejection says whether it is too early or too late |
| TemperatureProcessor.ParseLine | TemperatureMonitoring/src/temperature_processor.py:85-98 | a record comes only from a line with at least four `;` fields, has an in-range timestamp, and that timestamp truncates the first field's number |
| TemperatureProcessor.RecordsCount | TemperatureMonitoring/src/temperature_processor.py:84-104 | every data line is a record, a warned-about invalid line or a short line skipped silently |
| TemperatureProcessor.RecordsExactly | TemperatureMonitoring/src/temperature_processor.py:84-98 | the records are exactly the values of the lines that parse |
| TemperatureProcessor.LineStep | TemperatureMonitoring/src/temperature_processor.py:84-104 | one more line adds its record, or one to the invalid count when it has four fields but fails |
| TemperatureProcessor.ParseCsv | TemperatureMonitoring/src/temperature_processor.py:71-75 | fewer than three lines is an error and only then; the device is the stripped first line |
| TemperatureProcessor.ParseCsvFile | TemperatureMonitoring/src/temperature_processor.py:57-118 | the parsing loop returns exactly the parsed file, and its counter is the number of invalid data lines |
| TemperatureProcessor.ParseAll | TemperatureMonitoring/src/temperature_processor.py:161-163 | every extracted file is parsed, in order |
| TemperatureProcessor.UnnamedRecords | TemperatureMonitoring/src/temperature_processor.py:161-176 | a device no parsed file names has no records |
| TemperatureProcessor.MergeStep | TemperatureMonitoring/src/temperature_processor.py:161-176 | one more parse result extends the names and that device's records; a failed file changes nothing |
| TemperatureProcessor.DeviceNamesStep | TemperatureMonitoring/src/temperature_processor.py:165-172 | a parse result adds its device to the key order only when the device is new |
| TemperatureProcessor.MergeStateStep | TemperatureMonitoring/src/temperature_processor.py:161-176 | one iteration of the merge loop: a known device's records are extended, a new device is appended with its records |
| TemperatureProcessor.RemoveDuplicates | TemperatureMonitoring/src/temperature_processor.py:181-200 | the seen-set loop keeps the first occurrence of each record, in order |
| TemperatureProcessor.MergeFiles | TemperatureMonitoring/src/temperature_processor.py:158-176 | the merge loop's keys are the parsed devices in first-appearance order, each with all its files' records concatenated |
| TemperatureProcessor.TidyAll | TemperatureMonitoring/src/temperature_processor.py:178-218 | one tidied export per device, in the dictionary's order |
| TemperatureProcessor.TidyRecords | TemperatureMonitoring/src/temperature_processor.py:181-207 | deduplicate, then sort by timestamp |
| TemperatureProcessor.ProcessZipFile | TemperatureMonitoring/src/temperature_processor.py:145-220 | the whole processing returns exactly the merged, deduplicated, ordered exports |
| TemperatureProcessor.MergedIs | TemperatureMonitoring/src/temperature_processor.py:158-220 | the merge loop's state, tidied device by device, is the merged result |
| TemperatureProcessor.NamesOfExactly | TemperatureMonitoring/src/temperature_processor.py:161-176 | a device is named iff some file of it parsed |
| TemperatureProcessor.DeviceRecordsExactly | TemperatureMonitoring/src/temperature_processor.py:161-176 | a device's merged records are exactly the records of its parsed files |
| TemperatureProcessor.TidyProperties | TemperatureMonitoring/src/temperature_processor.py:181-207 | tidying orders by time, keeps every distinct record and keeps each once |
| TemperatureProcessor.MergedNamesUnique | TemperatureMonitoring/src/temperature_processor.py:165-172 | each device appears once in the result |
| TemperatureProcessor.MergedNames | TemperatureMonitoring/src/temperature_processor.py:161-178 | the devices of the result are exactly the devices of the files that parsed |
| TemperatureProcessor.MergedRecords | TemperatureMonitoring/src/temperature_processor.py:161-207 | each device's result holds all records of its files, each distinct record once, ordered by time |
| DataImporter.Stored | TemperatureMonitoring/src/data_importer.py:110-131 | the stored record keeps the timestamp, and its hash names the device and that timestamp |
| DataImporter.CandidatesStep | TemperatureMonitoring/src/data_importer.py:104-108 | one more record is a candidate unless it is from before 2020, when it is counted as skipped |
| DataImporter.EntryFor | TemperatureMonitoring/src/data_importer.py:86-94 | the device's stored entry, or a fresh one under its name |
| DataImporter.CandidatesCount | TemperatureMonitoring/src/data_importer.py:102-108 | every input record is a candidate or skipped; candidates are from 2020 on and hashed under the device |
| DataImporter.ImportedRecords | TemperatureMonitoring/src/data_importer.py:97-147 | an import keeps every stored record, adds only new-hash records from 2020 on, leaves the records sorted and sets the total to their number |
| DataImporter.ImportedConsistent | TemperatureMonitoring/src/data_importer.py:114-140 | an import keeps the hash set equal to the stored records' hashes, no two records sharing one |
| DataImporter.ImportTwice | TemperatureMonitoring/src/data_importer.py:114-136 | importing the same records again adds nothing |
| DataImporter.Importer.ProcessDeviceData | TemperatureMonitoring/src/data_importer.py:71-148 | no records change nothing and return (0, 0); otherwise the device's entry, created when missing, becomes the imported one, and new plus duplicates plus skipped is the number of records |
| DataImporter.ImportRecordKeeps | TemperatureMonitoring/src/data_importer.py:104-136 | one iteration of the record loop keeps its invariant |
| DataImporter.ImportUpToMeaning | TemperatureMonitoring/src/data_importer.py:104-136 | after k records the loop has appended exactly the new-hash candidates, first occurrence only, collected every candidate's hash and counted every record once |
| DataImporter.ImportLoop | TemperatureMonitoring/src/data_importer.py:104-136 | the record loop appends a record iff its hash is not yet in the growing set, and the counters add up to the number of records |
| DataImporter.ImportStep | TemperatureMonitoring/src/data_importer.py:104-136 | one more input record: skipped if old, else appended iff its hash is new, its hash joining the set |
| DataImporter.Importer.constructor | TemperatureMonitoring/src/data_importer.py:24-27 | the importer starts from the devices of the loaded database |
| GasmeterLoader.DigitField | TemperatureMonitoring/loadGasmeterValuesIntoDatabase.py:56-65 | a numeric field is accepted only when it is all ASCII digits and of the allowed width |
| GasmeterLoader.DayField | TemperatureMonitoring/loadGasmeterValuesIntoDatabase.py:60 | a `%d` day is one or two digits, or a space and a digit from 1 to 9, with that digit's value |
| GasmeterLoader.ParseDateTime | TemperatureMonitoring/loadGasmeterValuesIntoDatabase.py:56-65 | the date and time fields are parsed as one text, joined by a space; an accepted value is a real calendar date and time of day |
| GasmeterLoader.Strptime | TemperatureMonitoring/loadGasmeterValuesIntoDatabase.py:60-61 | an accepted `%m/%d/%Y %H:%M` text is a real calendar date and time of day |
| GasmeterLoader.StrptimeFields | TemperatureMonitoring/loadGasmeterValuesIntoDatabase.py:60-61 | a text laid out as month `/` day `/` four-digit year, a space, hour `:` minute is read field by field under the width and range rules of each directive |
| GasmeterLoader.ParseFormatted | TemperatureMonitoring/loadGasmeterValuesIntoDatabase.py:56-65 | every valid date and time, written as `M/D/YYYY` and `H:MM`, is read back unchanged |
| GasmeterLoader.ParseSpacePaddedDay | TemperatureMonitoring/loadGasmeterValuesIntoDatabase.py:60 | a valid date whose day below 10 is written with a leading space is read as that date |
| GasmeterLoader.ParseDaySpanningJoin | TemperatureMonitoring/loadGasmeterValuesIntoDatabase.py:60-61 | when the date field ends after the month's `/` and the time field holds the rest, the joining space becomes the padding of a day below 10 and the row is read as that date and time |
| GasmeterLoader.ParseSplitRowExample | TemperatureMonitoring/loadGasmeterValuesIntoDatabase.py:60-61 | the fields `1/` and `2/2024 10:30` are read as 2 January 2024, 10:30 |
| GasmeterLoader.OrdinalOrder | TemperatureMonitoring/loadGasmeterValuesIntoDatabase.py:159 | on valid dates the ordinal is strictly monotone in the ISO-string order and one-to-one, so sorting by it is sorting by the timestamp string |
| GasmeterLoader.DataRows | TemperatureMonitoring/loadGasmeterValuesIntoDatabase.py:80-93 | the header row is skipped iff the first line's lower-case form contains a keyword |
| GasmeterLoader.RowRecord | TemperatureMonitoring/loadGasmeterValuesIntoDatabase.py:95-126 | a row gives a record only when it has at least three fields and its date and time fields, joined, read as a valid date and time |
| GasmeterLoader.RowRecordsExactly | TemperatureMonitoring/loadGasmeterValuesIntoDatabase.py:95-126 | the loaded records are exactly the values of the accepted rows, no more than there are rows |
| GasmeterLoader.LoadCsvFile | TemperatureMonitoring/loadGasmeterValuesIntoDatabase.py:67-136 | the loop returns the accepted rows' records in file order, and records plus skipped rows is the number of data rows |
| GasmeterLoader.AddedSectionProperties | TemperatureMonitoring/loadGasmeterValuesIntoDatabase.py:138-170 | old records are kept, only new timestamps are added, every input timestamp is present afterwards, the records are in time order and the count is their number |
| GasmeterLoader.AddedUnique | TemperatureMonitoring/loadGasmeterValuesIntoDatabase.py:152-164 | timestamps that were unique stay unique |
| GasmeterLoader.AddTwice | TemperatureMonitoring/loadGasmeterValuesIntoDatabase.py:152-164 | loading the same readings again adds nothing |
| GasmeterLoader.Loader.AddGasmeterData | TemperatureMonitoring/loadGasmeterValuesIntoDatabase.py:138-184 | the section, created when missing, becomes the added one; new plus duplicates is the number of input records |
| GasmeterLoader.Loader.constructor | TemperatureMonitoring/loadGasmeterValuesIntoDatabase.py:28-30 | the loader starts from the gas-meter section of the loaded database, if any |
| LogAnalyzer.Until | EViP_ZH_gen/LogAnalyzer.Core/LogAnalyzerService.cs:144 | the first `c` in the string, or its length: no `c` before it |
| LogAnalyzer.Bracket | EViP_ZH_gen/LogAnalyzer.Core/LogAnalyzerService.cs:144 | a bracketed group runs up to the first `]`, is non-empty, and with the rest re-forms the input |
| LogAnalyzer.BracketOf | EViP_ZH_gen/LogAnalyzer.Core/LogAnalyzerService.cs:144 | a non-empty field without `]` is read back from its bracketed form |
| LogAnalyzer.Body | EViP_ZH_gen/LogAnalyzer.Core/LogAnalyzerService.cs:144 | `(.+)$` captures a non-empty single line, the input possibly having one final newline |
| LogAnalyzer.ParseLogLine | EViP_ZH_gen/LogAnalyzer.Core/LogAnalyzerService.cs:139-164 | a parsed entry has four non-empty fields, the first three without `]`, and renders the line (up to a final newline) |
| LogAnalyzer.ParseFormat | EViP_ZH_gen/LogAnalyzer.Core/LogAnalyzerService.cs:139-164 | parsing inverts rendering: every parsable entry is read back from its line, with or without a final newline |
| LogAnalyzer.IsValidLogFormatExactly | EViP_ZH_gen/LogAnalyzer.Core/LogAnalyzerService.cs:88-98 | a line is valid iff it renders a well-formed entry: a digit timestamp of the fixed shape, one of the four levels in upper case, a user without `]` and a non-empty message |
| LogAnalyzer.ValidParses | EViP_ZH_gen/LogAnalyzer.Core/LogAnalyzerService.cs:139-164 | a valid line parses into four non-empty fields whose rendering is the line itself |
| LogAnalyzer.ReadLogFile | EViP_ZH_gen/LogAnalyzer.Core/LogAnalyzerService.cs:15-45 | the line loop keeps, in order, the parse of each valid line |
| LogAnalyzer.ReadLogFileEntries | EViP_ZH_gen/LogAnalyzer.Core/LogAnalyzerService.cs:15-45 | one entry per valid line, in order, each well-formed and rendering its line |
| LogAnalyzer.FilterByLevelExactly | EViP_ZH_gen/LogAnalyzer.Core/LogAnalyzerService.cs:53-57 | an entry is kept as often as it occurs when its level equals the requested one ignoring case, and never otherwise |
| LogAnalyzer.FilterByLevelConcat | EViP_ZH_gen/LogAnalyzer.Core/LogAnalyzerService.cs:53-57 | filtering distributes over concatenation, so the input order is kept |
| LogAnalyzer.CountErrorEntriesFilter | EViP_ZH_gen/LogAnalyzer.Core/LogAnalyzerService.cs:64-68 | counting the errors is filtering on `ERROR` and taking the length |
| LogAnalyzer.GetUserActivitySummaryCounts | EViP_ZH_gen/LogAnalyzer.Core/LogAnalyzerService.cs:75-81 | the summary's keys are exactly the non-empty users, compared case-sensitively, each with the number of their entries |
| LogAnalyzer.UserCountPositive | EViP_ZH_gen/LogAnalyzer.Core/LogAnalyzerService.cs:75-81 | a user has a positive count iff one of the entries is theirs |
| LogAnalyzer.UsersAreKeys | EViP_ZH_gen/LogAnalyzer.Core/LogAnalyzerService.cs:79-80 | the grouping keys are distinct and are the summary's keys |
| LogAnalyzer.GetUserActivitySummaryTotal | EViP_ZH_gen/LogAnalyzer.Core/LogAnalyzerService.cs:75-81 | the counts add up to the number of entries with a user |
| LogAnalyzer.OctetEnds | EViP_ZH_gen/LogAnalyzer.Core/LogAnalyzerService.cs:125 | where an octet alternative can end: one to three digits after the start |
| LogAnalyzer.OctetEndsValue | EViP_ZH_gen/LogAnalyzer.Core/LogAnalyzerService.cs:125 | every candidate end delimits an octet worth at most 255 |
| LogAnalyzer.TryOctets | EViP_ZH_gen/LogAnalyzer.Core/LogAnalyzerService.cs:125 | the first candidate end from which the rest of the pattern matches gives the required number of octets and a word boundary |
| LogAnalyzer.Continue | EViP_ZH_gen/LogAnalyzer.Core/LogAnalyzerService.cs:125 | after an octet, the required dot-led octets and then a word boundary |
| LogAnalyzer.MatchIP | EViP_ZH_gen/LogAnalyzer.Core/LogAnalyzerService.cs:125 | a match of the IPv4 pattern is four dot-separated octets of at most 255 |
| LogAnalyzer.TryDomain | EViP_ZH_gen/LogAnalyzer.Core/LogAnalyzerService.cs:108 | the greedy domain part gives back characters until a dot, two or more letters and a word boundary follow |
| LogAnalyzer.MatchEmail | EViP_ZH_gen/LogAnalyzer.Core/LogAnalyzerService.cs:108 | a match of the e-mail pattern has the `local@domain.tld` shape with a top level of at least two letters |
| LogAnalyzer.SelectManyMembers | EViP_ZH_gen/LogAnalyzer.Core/LogAnalyzerService.cs:110-129 | an element is selected iff it comes from some input element |
| LogAnalyzer.ScanWitness | EViP_ZH_gen/LogAnalyzer.Core/LogAnalyzerService.cs:111-128 | every string the scan finds is a match of the pattern at some position of the message |
| LogAnalyzer.IPsInShape | EViP_ZH_gen/LogAnalyzer.Core/LogAnalyzerService.cs:125-128 | every IP found in a message occurs there and has four octets of at most 255 |
| LogAnalyzer.EmailsInShape | EViP_ZH_gen/LogAnalyzer.Core/LogAnalyzerService.cs:108-111 | every address found in a message occurs there and has the `local@domain.tld` shape |
| LogAnalyzer.ExtractIPAddressesProperties | EViP_ZH_gen/LogAnalyzer.Core/LogAnalyzerService.cs:122-132 | the extracted IPs are distinct, each occurs in some message and is a valid IPv4 address, and every IP the pattern finds is among them |
| LogAnalyzer.ExtractEmailAddressesProperties | EViP_ZH_gen/LogAnalyzer.Core/LogAnalyzerService.cs:105-115 | the extracted addresses are distinct, each occurs in some message and has the e-mail shape, and every address the pattern finds is among them |
| DataFusion.FirstEnrollment | ProjectLabAdmin/app1_data_collector/data_fusion.py:41-55 | the student's first enrollment, none iff the student has no enrollment |
| DataFusion.FirstTopic | ProjectLabAdmin/app1_data_collector/data_fusion.py:80-91 | the student's first topic record, none iff there is none |
| DataFusion.LastTopic | ProjectLabAdmin/app1_data_collector/data_fusion.py:68-79 | the student's last topic record, whose fields the updates leave behind; none iff there is none |
| DataFusion.CoursesOf | ProjectLabAdmin/app1_data_collector/data_fusion.py:57-66 | the student's enrollments as course entries, none for a student without enrollments |
| DataFusion.Fused | ProjectLabAdmin/app1_data_collector/data_fusion.py:19-108 | one fused record per student, in the dictionary's key order |
| DataFusion.EnrollStep | ProjectLabAdmin/app1_data_collector/data_fusion.py:41-66 | one enrollment: the student is created at their first enrollment, and the course is appended |
| DataFusion.ExpectedEnrollSnoc | ProjectLabAdmin/app1_data_collector/data_fusion.py:41-66 | one more enrollment appends a course to its own student only, creating the student the first time |
| DataFusion.TopicStep | ProjectLabAdmin/app1_data_collector/data_fusion.py:68-91 | one topic record: an existing student's topic fields are replaced, a new student is added without courses |
| DataFusion.ExpectedTopicSnoc | ProjectLabAdmin/app1_data_collector/data_fusion.py:68-91 | one more topic record updates its own student only, creating the student when neither input had them |
| DataFusion.FuseData | ProjectLabAdmin/app1_data_collector/data_fusion.py:19-108 | the two loops return exactly the fused records; no input gives no records |
| DataFusion.CollectEnrollments | ProjectLabAdmin/app1_data_collector/data_fusion.py:41-66 | the enrollment loop builds the students of the enrollments seen |
| DataFusion.AddTopics | ProjectLabAdmin/app1_data_collector/data_fusion.py:68-91 | the topic loop updates or creates students record by record |
| DataFusion.FusedOnePerStudent | ProjectLabAdmin/app1_data_collector/data_fusion.py:38-94 | one record per distinct Neptun code of either input, no code twice |
| DataFusion.FusedCourses | ProjectLabAdmin/app1_data_collector/data_fusion.py:57-91 | each student's courses are exactly their enrollments in input order; a topic-only student has none |
| DataFusion.FusedTopic | ProjectLabAdmin/app1_data_collector/data_fusion.py:68-91 | the topic fields are those of the student's last topic record, or empty without one |
| DataFusion.FusedName | ProjectLabAdmin/app1_data_collector/data_fusion.py:45-91 | the name comes from the first enrollment; topic records never overwrite it |
| DataFusion.CoursesOverAll | ProjectLabAdmin/app1_data_collector/data_fusion.py:41-66 | over distinct codes covering all enrollments, the course counts add up to the enrollments |
| DataFusion.FusedKeepsEveryEnrollment | ProjectLabAdmin/app1_data_collector/data_fusion.py:41-66 | no enrollment is lost: the fused records hold as many course entries as there are enrollments |
| DataFusion.MissingCourses | ProjectLabAdmin/app1_data_collector/data_fusion.py:119-141 | an allowed course is missing from either input iff no record of that input carries it |
| DataFusion.AnalyzeFusionResults | ProjectLabAdmin/app1_data_collector/data_fusion.py:143-195 | the counts are those of the students with a topic, with enrollments, with both and in an English course; the course sets are the non-empty codes of all, English and Hungarian courses |
| DataFusion.AddCourseCodes | ProjectLabAdmin/app1_data_collector/data_fusion.py:162-170 | the inner loop adds exactly the non-empty codes of the student's courses to the right sets |
| DataFusion.CodesOfSplit | ProjectLabAdmin/app1_data_collector/data_fusion.py:162-170 | every collected code is English or Hungarian |
| DataFusion.CodesOfMembers | ProjectLabAdmin/app1_data_collector/data_fusion.py:162-170 | a code is collected iff it is the non-empty code of a course satisfying the test |
| DataFusion.StudentCodesOfMembers | ProjectLabAdmin/app1_data_collector/data_fusion.py:161-170 | a code is collected iff some student has a course with it |
| DataFusion.AnalysisConsistent | ProjectLabAdmin/app1_data_collector/data_fusion.py:143-195 | students with both are no more than either group, which are no more than all students; the course set is the English and Hungarian sets together |
| DataLoaders.EnglishTopicPrefix | ProjectLabAdmin/app1_data_collector/data_loaders.py:130-134 | a topic is English iff its title has at least five characters whose upper-case form is `Z-ENG`, whatever their case |
| DataLoaders.FindConsultationSheet | ProjectLabAdmin/app1_data_collector/data_loaders.py:75-80 | the first worksheet whose lower-case name contains `konzultáció`, none iff no worksheet's does |
| DataLoaders.ExtractTopicRowFields | ProjectLabAdmin/app1_data_collector/data_loaders.py:97-128 | no record iff the Neptun cell is empty or `nan`; otherwise the record has that code and name, a topic iff the title is present and non-empty, English only with a topic, and no field reading `nan` |
| DataLoaders.LoadTopicData | ProjectLabAdmin/app1_data_collector/data_loaders.py:30-73 | the loader returns exactly the topics of the consultation sheet with an allowed course, none without the file or the sheet |
| DataLoaders.TopicsLoadedExactly | ProjectLabAdmin/app1_data_collector/data_loaders.py:58-95 | every loaded topic record comes from a row of the consultation sheet and has an allowed course, and every such row's record is loaded |
| DataLoaders.ImportNameAt | ProjectLabAdmin/app1_data_collector/data_loaders.py:222-223 | a match of `jegyimport_([^_]+)_([^_]+)_` at a position gives two non-empty groups without `_` |
| DataLoaders.SearchImportName | ProjectLabAdmin/app1_data_collector/data_loaders.py:222-223 | the leftmost position where the file-name pattern matches, none iff it matches nowhere |
| DataLoaders.CourseCodeAt | ProjectLabAdmin/app1_data_collector/data_loaders.py:248 | a match of `BMEVI[A-Z]+\d+` is at least seven characters long |
| DataLoaders.CourseCodeAtShape | ProjectLabAdmin/app1_data_collector/data_loaders.py:248 | what the fallback pattern matches has the course-code shape |
| DataLoaders.SearchCourseCode | ProjectLabAdmin/app1_data_collector/data_loaders.py:248 | the search returns a position where the fallback pattern matches |
| DataLoaders.SearchCourseCodeFirst | ProjectLabAdmin/app1_data_collector/data_loaders.py:248 | the fallback pattern matches nowhere before the position found, and nowhere when none is found |
| DataLoaders.CourseCodeFromFilename | ProjectLabAdmin/app1_data_collector/data_loaders.py:246-249 | "UNKNOWN" iff the pattern matches nowhere in the upper-cased name; otherwise the leftmost match, which has the course-code shape and occurs in the name |
| DataLoaders.CourseInfoFromFilename | ProjectLabAdmin/app1_data_collector/data_loaders.py:218-244 | the code is never empty, and the course is English only when the code starts with `BMEVI` |
| DataLoaders.ImportNameAtStart | ProjectLabAdmin/app1_data_collector/data_loaders.py:222-223 | the pattern matches at the start of a name built from it, with the two groups |
| DataLoaders.CourseInfoOfImportName | ProjectLabAdmin/app1_data_collector/data_loaders.py:218-235 | a name starting with the pattern yields its code upper-cased, English iff the code starts with `BMEVI` and the type with `A` |
| DataLoaders.ExtractEnrollmentRow | ProjectLabAdmin/app1_data_collector/data_loaders.py:251-274 | no record iff the Neptun cell is empty or `nan`; otherwise it carries that code and the file's course code, language and name |
| DataLoaders.ProcessEnrollmentFile | ProjectLabAdmin/app1_data_collector/data_loaders.py:189-216 | an empty file gives no records, otherwise one per row with a Neptun code |
| DataLoaders.ExtractEnrollments | ProjectLabAdmin/app1_data_collector/data_loaders.py:203-207 | the row loop keeps, in order, the records of the rows with a Neptun code |
| DataLoaders.LoadEnrollmentData | ProjectLabAdmin/app1_data_collector/data_loaders.py:144-187 | the loader returns exactly the allowed-course enrollments of all files, none without the folder |
| DataLoaders.FileEnrollmentsInfo | ProjectLabAdmin/app1_data_collector/data_loaders.py:189-216 | each enrollment of a file has a Neptun code and carries the code and language its file name gives |
| DataLoaders.AllEnrollmentsInfo | ProjectLabAdmin/app1_data_collector/data_loaders.py:169-173 | each enrollment of the folder carries the code and language of the file it came from |
| DataLoaders.EnrollmentsLoadedProperties | ProjectLabAdmin/app1_data_collector/data_loaders.py:144-187 | every loaded enrollment is of an allowed course, has a Neptun code and carries its file's code and language |
| DataLoaders.FileEnrollmentsExactly | ProjectLabAdmin/app1_data_collector/data_loaders.py:189-216 | a file's enrollments are exactly the records its rows yield |
| DataLoaders.AllEnrollmentsExactly | ProjectLabAdmin/app1_data_collector/data_loaders.py:166-173 | the folder's enrollments are exactly the records the files' rows yield |
| DataLoaders.EnrollmentsLoadedExactly | ProjectLabAdmin/app1_data_collector/data_loaders.py:166-183 | the loader keeps exactly the records of the files' rows that name an allowed course |
| DlFusionProcessor.WithBmePrefixProperties | ProjectLabAdmin/app1_data_collector/dlfusion_processor.py:70-74 | the prefixed topic-sheet code starts with `BME` iff the code is non-empty, ends with the code, is unchanged when it already has the prefix, and prefixing twice is prefixing once |
| DlFusionProcessor.DlxlsRecordOf | ProjectLabAdmin/app1_data_collector/dlfusion_processor.py:69-92 | a topic-workbook row yields a record only when it has a Neptun code and an allowed course code |
| DlFusionProcessor.DlnepRecordOf | ProjectLabAdmin/app1_data_collector/dlfusion_processor.py:144-161 | a grade-import row yields a record only when it has a Neptun code and its file's course is allowed, and the record carries the file's code and language |
| DlFusionProcessor.DlxlsRecordsExactly | ProjectLabAdmin/app1_data_collector/dlfusion_processor.py:68-92 | the loaded topic records are exactly those some row yields, and each is kept |
| DlFusionProcessor.DlnepRecordsExactly | ProjectLabAdmin/app1_data_collector/dlfusion_processor.py:143-161 | one file's loaded records are exactly those its rows yield, each kept, with the file's code and language |
| DlFusionProcessor.FolderRecordsKept | ProjectLabAdmin/app1_data_collector/dlfusion_processor.py:126-169 | a record loaded from the folder is kept, has a `BMEVI` course code, and carries the code and language its read file's name yields |
| DlFusionProcessor.AllowedCodesAreBmevi | ProjectLabAdmin/app1_data_collector/dlfusion_processor.py:133-159 | every allowed course code starts with `BMEVI`, so skipping other file names never drops a kept row |
| DlFusionProcessor.FirstEnrollment | ProjectLabAdmin/app1_data_collector/dlfusion_processor.py:289-300 | the student's first enrollment, none iff the student has no enrollment |
| DlFusionProcessor.FirstTopic | ProjectLabAdmin/app1_data_collector/dlfusion_processor.py:333-344 | the student's first topic record, none iff the student has none |
| DlFusionProcessor.LastTopic | ProjectLabAdmin/app1_data_collector/dlfusion_processor.py:326-331 | the student's last topic record, whose fields the topic loop leaves in place; none iff the student has none |
| DlFusionProcessor.CoursesOf | ProjectLabAdmin/app1_data_collector/dlfusion_processor.py:302-314 | a student without enrollments has no courses |
| DlFusionProcessor.Expected | ProjectLabAdmin/app1_data_collector/dlfusion_processor.py:282-344 | the expected record of a student carries the student's Neptun code |
| DlFusionProcessor.Unsorted | ProjectLabAdmin/app1_data_collector/dlfusion_processor.py:347 | the dictionary's values: one per distinct Neptun code in insertion order |
| DlFusionProcessor.NotEnglishEnrolled | ProjectLabAdmin/app1_data_collector/dlfusion_processor.py:316-318 | a student without enrollments is not marked as enrolled in an English course |
| DlFusionProcessor.EnrollOther | ProjectLabAdmin/app1_data_collector/dlfusion_processor.py:285-318 | an enrollment of another student leaves a student's record as it was |
| DlFusionProcessor.EnrollSelf | ProjectLabAdmin/app1_data_collector/dlfusion_processor.py:289-318 | an enrollment creates its student's record if missing, adds its course unless the code is listed, and sets the English-course flag |
| DlFusionProcessor.EnrollStep | ProjectLabAdmin/app1_data_collector/dlfusion_processor.py:285-318 | one pass of the enrollment loop keeps the dictionary equal to the expected records of the enrollments seen so far, keys in insertion order |
| DlFusionProcessor.TopicOther | ProjectLabAdmin/app1_data_collector/dlfusion_processor.py:321-344 | a topic record of another student leaves a student's record as it was |
| DlFusionProcessor.TopicSelf | ProjectLabAdmin/app1_data_collector/dlfusion_processor.py:322-344 | a topic record overwrites the topic fields of an existing student, or adds a topic-only student without courses |
| DlFusionProcessor.TopicStep | ProjectLabAdmin/app1_data_collector/dlfusion_processor.py:321-344 | one pass of the topic loop keeps the dictionary equal to the expected records, keys in insertion order |
| DlFusionProcessor.DataFusionProcessor.constructor | ProjectLabAdmin/app1_data_collector/dlfusion_processor.py:39-44 | a new processor holds no topic, enrollment or fused records |
| DlFusionProcessor.DataFusionProcessor.LoadDlxlsData | ProjectLabAdmin/app1_data_collector/dlfusion_processor.py:46-99 | loading succeeds iff the workbook is there, and then holds exactly the kept topic records; failure and the other fields leave the state unchanged |
| DlFusionProcessor.DataFusionProcessor.LoadDlnepData | ProjectLabAdmin/app1_data_collector/dlfusion_processor.py:101-176 | loading fails iff the folder is missing or has no workbooks; success holds exactly the kept records of the folder, file after file |
| DlFusionProcessor.DataFusionProcessor.FuseData | ProjectLabAdmin/app1_data_collector/dlfusion_processor.py:260-365 | fusion fails, changing nothing, iff neither source has records; otherwise the fused data is the expected student records sorted by name |
| DlFusionProcessor.DataFusionProcessor.GetFusionSummary | ProjectLabAdmin/app1_data_collector/dlfusion_processor.py:414-474 | an error iff nothing is fused; otherwise every count, course list and category tally of the summary is the one of the fused data |
| DlFusionProcessor.DataFusionProcessor.ProcessFusion | ProjectLabAdmin/app1_data_collector/dlfusion_processor.py:476-515 | the pipeline succeeds iff both sources load, one of them has kept records and the JSON is written, and then holds the fusion of the two |
| DlFusionProcessor.ReadFolder | ProjectLabAdmin/app1_data_collector/dlfusion_processor.py:129-169 | the file loop gathers each read file's kept rows, file after file |
| DlFusionProcessor.ReadFile | ProjectLabAdmin/app1_data_collector/dlfusion_processor.py:130-165 | a file is skipped unless its code starts with `BMEVI` and it has rows; otherwise its kept rows |
| DlFusionProcessor.FuseRecords | ProjectLabAdmin/app1_data_collector/dlfusion_processor.py:282-347 | the two loops build the dictionary whose values are the expected records in insertion order |
| DlFusionProcessor.CollectEnrollments | ProjectLabAdmin/app1_data_collector/dlfusion_processor.py:285-318 | the enrollment loop ends with the expected record of every enrolled student |
| DlFusionProcessor.AddTopics | ProjectLabAdmin/app1_data_collector/dlfusion_processor.py:321-344 | the topic loop ends with the expected record of every student of either source |
| DlFusionProcessor.FusedNonEmpty | ProjectLabAdmin/app1_data_collector/dlfusion_processor.py:272-347 | when either source has records the fused data is non-empty |
| DlFusionProcessor.UnsortedOnePerStudent | ProjectLabAdmin/app1_data_collector/dlfusion_processor.py:282-347 | the dictionary's values have distinct Neptun codes, each the student's expected record, one per code of either source |
| DlFusionProcessor.FusedOnePerStudent | ProjectLabAdmin/app1_data_collector/dlfusion_processor.py:347-350 | the fused data is sorted by name, a permutation of the dictionary's values, and has exactly one expected record per Neptun code of either source |
| DlFusionProcessor.CoursesOfDistinct | ProjectLabAdmin/app1_data_collector/dlfusion_processor.py:311-314 | a student's courses have pairwise different codes, each taken from one of their enrollments |
| DlFusionProcessor.CoursesOfComplete | ProjectLabAdmin/app1_data_collector/dlfusion_processor.py:311-314 | every course code a student enrolled in is listed among their courses |
| DlFusionProcessor.EnglishEnrolledExists | ProjectLabAdmin/app1_data_collector/dlfusion_processor.py:316-318 | the English-course flag is set iff one of the student's enrollments is English |
| DlFusionProcessor.FusedStudentFields | ProjectLabAdmin/app1_data_collector/dlfusion_processor.py:282-347 | each fused student's courses are their enrollments deduplicated by code, the English flag reflects their enrollments, and the topic fields are those of their last topic record or empty |
| DlFusionProcessor.CourseSets | ProjectLabAdmin/app1_data_collector/dlfusion_processor.py:432-443 | the course loop collects all course codes, the English ones and the Hungarian ones |
| DlFusionProcessor.CategoryTallies | ProjectLabAdmin/app1_data_collector/dlfusion_processor.py:446-454 | the category loop counts each topic student under their category, English and Hungarian topics apart |
| DlFusionProcessor.CodesOfSplit | ProjectLabAdmin/app1_data_collector/dlfusion_processor.py:436-443 | every course code of a student is English or Hungarian |
| DlFusionProcessor.StudentCodesOfSplit | ProjectLabAdmin/app1_data_collector/dlfusion_processor.py:436-443 | the set of all course codes is the union of the English and the Hungarian ones |
| DlFusionProcessor.SummaryConsistent | ProjectLabAdmin/app1_data_collector/dlfusion_processor.py:424-474 | the English and Hungarian topic counts add up to the topic count; each category tally adds up to its count; the students with both are no more than either group; every listed course is English or Hungarian |
| ExcelComponents.EligibleStep | ProjectLabAdmin/app1_data_collector/excel_components.py:195-204 | one more student joins the counted list exactly when counted |
| ExcelComponents.EligibleExactly | ProjectLabAdmin/app1_data_collector/excel_components.py:196-204 | a student is counted iff enrolled in a statistics course, with a topic and a non-empty category |
| ExcelComponents.CountStudentKeeps | ProjectLabAdmin/app1_data_collector/excel_components.py:195-214 | one iteration of the counting loop keeps the category dict, its key order and the English count equal to those of the students seen so far |
| ExcelComponents.CountStudentStep | ProjectLabAdmin/app1_data_collector/excel_components.py:204-214 | a counted English student bumps the English count, a counted Hungarian one its category, an uncounted one nothing |
| ExcelComponents.HungarianCounted | ProjectLabAdmin/app1_data_collector/excel_components.py:213-214 | a Hungarian student bumps its category's count and appends the key at the category's first student |
| ExcelComponents.TallyTopics | ProjectLabAdmin/app1_data_collector/excel_components.py:191-214 | the loop's dict holds, in first-seen key order, the number of counted Hungarian students per category, and the English count is the number of counted English students |
| ExcelComponents.TallyStep | ProjectLabAdmin/app1_data_collector/excel_components.py:204-214 | one more student joins the Hungarian or the English list exactly when counted with that language |
| ExcelComponents.TopicCountsAddUp | ProjectLabAdmin/app1_data_collector/excel_components.py:216-221 | the category counts and the English count add up to the number of counted students; each category count is at least one and is its number of students; the keys are non-empty and distinct |
| ExcelComponents.RequiredSessions | ProjectLabAdmin/app1_data_collector/excel_components.py:223-226 | no sessions for a non-positive head count; otherwise the least number of sessions of `k` students that seats everyone |
| ExcelComponents.CeilDiv | ProjectLabAdmin/app1_data_collector/excel_components.py:226 | the least multiple count that reaches `n` |
| ExcelComponents.StatisticsCalculator.constructor | ProjectLabAdmin/app1_data_collector/excel_components.py:177-179 | the calculator keeps the statistics course codes it is given |
| ExcelComponents.StatisticsCalculator.CalculateTopicStatistics | ProjectLabAdmin/app1_data_collector/excel_components.py:181-221 | the statistics are the category dict and English count over the students enrolled in a statistics course, with the totals; no document or no `students` key gives zeros |
| ExcelComponents.TopicRows | ProjectLabAdmin/app1_data_collector/excel_components.py:287-314 | the table has one row per Hungarian category in dict order, an `ENG` row only when some student is English, and a `TOTAL` row, each with the sessions its head count needs |
| ExcelComponents.CreatePlannerTable | ProjectLabAdmin/app1_data_collector/excel_components.py:121-171 | the header row is `Time Slot` and one column per weekday and room; one row per time slot with empty cells; the next free row is two past the table; a start row too small to hold the title fails and returns it unchanged |
| SessionPlanner.EverySessionTypeDescribed | ProjectLabAdmin/app1_data_collector/mkxlsx_creator.py:253-281 | every supported session type, the standard and the special ones, has its own description rather than the fallback |
| SessionPlanner.ColumnLetter | ProjectLabAdmin/app1_data_collector/mkxlsx_creator.py:271 | a column letter is a non-empty run of capital letters |
| SessionPlanner.ColumnRoundTrip | ProjectLabAdmin/app1_data_collector/mkxlsx_creator.py:271 | reading a column's letters back gives the column number |
| SessionPlanner.PlannerRangeText | ProjectLabAdmin/app1_data_collector/mkxlsx_creator.py:265-271 | the COUNTIF range is `B4:P7` |
| SessionPlanner.PlannerRangeCoversGrid | ProjectLabAdmin/app1_data_collector/mkxlsx_creator.py:265-271 | the range starts on the first slot row after a header at row 3, ends one row per time slot further, and spans column B to the last weekday-room column |
| SessionPlanner.SessionTypeTable | ProjectLabAdmin/app1_data_collector/mkxlsx_creator.py:273-284 | one row per session type, standard ones first, each with the COUNTIF formula of its code over the range and its description |
| SessionPlanner.FilterCountsFewer | ProjectLabAdmin/app1_data_collector/mkxlsx_creator.py:395-401 | the statistics-course filter only drops students: the summary counts no more than the sheet |
| SessionPlanner.SessionPlannerCreator.constructor | ProjectLabAdmin/app1_data_collector/mkxlsx_creator.py:23-26 | a new creator holds no fused data |
| SessionPlanner.SessionPlannerCreator.LoadFusedData | ProjectLabAdmin/app1_data_collector/mkxlsx_creator.py:58-87 | a missing or unparsable file fails and keeps the state; a parsed document is kept, and loading reports success iff it has a `students` key |
| SessionPlanner.SessionPlannerCreator.GetPlanningSummary | ProjectLabAdmin/app1_data_collector/mkxlsx_creator.py:375-433 | an error iff no truthy document; otherwise the total, the category dict and English count over topic students in statistics courses, which add up to the topic count, the sessions at nine per session, the planner's 4 x 5 x 3 = 60 slots and the supported session types |
| SessionPlanner.SessionPlannerCreator.CreateStatisticsSection | ProjectLabAdmin/app1_data_collector/mkxlsx_creator.py:155-296 | the topic table over every student with a topic and category, whatever their courses, then one COUNTIF row per session type; the next row is 17 past the start plus the topic rows; a start row before the sheet fails and is returned unchanged |
| SessionPlanner.FilteringEligible | ProjectLabAdmin/app1_data_collector/test_course_filtering.py:9-72 | in the filtering scenario only the two students in statistics courses are counted |
| SessionPlanner.FilteringScenario | ProjectLabAdmin/app1_data_collector/test_course_filtering.py:9-72 | the filtering scenario yields two topic students, `{"Software": 1}` and one English student |
| CourseIdentification.CourseTableMissesAtMostOne | ProjectLabAdmin/app1_data_collector/course_identification.py:56-63 | a table is the course table iff at most one of the five headings is missing and it names the supervisor and a `BMEVI` code |
| CourseIdentification.FindCourseTable | ProjectLabAdmin/app1_data_collector/course_identification.py:19-42 | the first table that is the course table, none iff no table is |
| CourseIdentification.HeaderMapSnoc | ProjectLabAdmin/app1_data_collector/course_identification.py:126-136 | one more header cell sets the column it names, the first keyword of the chain winning, to its index |
| CourseIdentification.HeaderMapKeys | ProjectLabAdmin/app1_data_collector/course_identification.py:123-136 | a column is in the dict iff some header cell names it |
| CourseIdentification.HeaderMapLast | ProjectLabAdmin/app1_data_collector/course_identification.py:126-136 | a column's index is that of the last cell naming it |
| CourseIdentification.ExtractHeaderIndices | ProjectLabAdmin/app1_data_collector/course_identification.py:113-143 | the column dict iff it names the code, requirement, teachers and selection columns, nothing otherwise |
| CourseIdentification.ReadHeaderRow | ProjectLabAdmin/app1_data_collector/course_identification.py:93-101 | a row of five cells or more whose stripped texts name the required columns yields their dict, any other row nothing |
| CourseIdentification.ParseHeaderRow | ProjectLabAdmin/app1_data_collector/course_identification.py:78-111 | among the first five rows, the first header row with its dict and index; none iff none of them is one |
| CourseIdentification.ContainsLength | ProjectLabAdmin/app1_data_collector/course_identification.py:241-245 | a text containing a piece is at least as long as the piece |
| CourseIdentification.ValidCourseFieldsNonEmpty | ProjectLabAdmin/app1_data_collector/course_identification.py:224-248 | a valid course has a non-empty code, requirement and teacher list |
| CourseIdentification.CourseFromRow | ProjectLabAdmin/app1_data_collector/course_identification.py:177-222 | a row yields a course only when its code, requirement and teachers make a valid course and the selection cell holds the menu; the course keeps its row index |
| CourseIdentification.ExtractCoursesFromRows | ProjectLabAdmin/app1_data_collector/course_identification.py:145-175 | the courses of the rows after the header row, in row order |
| CourseIdentification.FilterValidCourses | ProjectLabAdmin/app1_data_collector/course_identification.py:285-302 | the valid courses in order, and a course is kept iff it is valid |
| CourseIdentification.ExtractedCoursesValid | ProjectLabAdmin/app1_data_collector/course_identification.py:177-248 | every course read from the table passes the validator |
| CourseIdentification.ValidatorKeepsExtracted | ProjectLabAdmin/app1_data_collector/course_identification.py:285-302 | the validator keeps the whole list the row extraction returns |
| TopicScraper.TopicLinkRule | ProjectLabAdmin/app3_topic_collector/topic_scraper.py:169-199 | a link is a topic iff no `/Staff/` sits in the url, none of `Dr.`, `Prof.`, `PhD` sits in the title, the stripped title has at least three characters and `/Task/` sits in the url |
| TopicScraper.TopicLinkOf | ProjectLabAdmin/app3_topic_collector/topic_scraper.py:152-157 | a link is kept iff its stripped text and url are non-empty and it is a topic link, and then as that stripped text and url |
| TopicScraper.TopicLinksExactly | ProjectLabAdmin/app3_topic_collector/topic_scraper.py:147-157 | the kept links are exactly those some page link yields, each a non-empty topic link |
| TopicScraper.PrefixInFirstPart | ProjectLabAdmin/app3_topic_collector/topic_scraper.py:211-213 | a marker at the front of the page stays at the front of its first line |
| TopicScraper.ContainsInSomePart | ProjectLabAdmin/app3_topic_collector/topic_scraper.py:210-213 | a marker found in the page text is found on one of its lines, so the line loop finds a marker line whenever the page check succeeds |
| TopicScraper.ExtractExternalPartnerInfo | ProjectLabAdmin/app3_topic_collector/topic_scraper.py:201-219 | external iff the page names the partner marker; the partner is that of the first marker line, its own text without the marker or else the next line, stripped and never empty; no partner when not external |
| TopicScraper.PartnerStripped | ProjectLabAdmin/app3_topic_collector/topic_scraper.py:215-218 | a partner name is stripped |
| TopicScraper.FirstNumber | ProjectLabAdmin/app3_topic_collector/topic_scraper.py:236-238 | a number iff the line has a digit, and then the value of its first run of digits |
| TopicScraper.ExtractStudentLimit | ProjectLabAdmin/app3_topic_collector/topic_scraper.py:221-241 | the first number of the first marker line that has a digit, nothing (the configured default) iff no marker line has one |
| TopicScraper.RunEndSkips | ProjectLabAdmin/app3_topic_collector/topic_scraper.py:236 | a run of digits is read whole |
| TopicScraper.StudentLimitRoundTrip | ProjectLabAdmin/app3_topic_collector/topic_scraper.py:221-241 | a limit written as `Maximális létszám: <n> fő` reads back as `n` |
| TopicScraper.ExtractAdvisors | ProjectLabAdmin/app3_topic_collector/topic_scraper.py:243-274 | the loop lists exactly the advisors of the section-scanning definition |
| TopicScraper.AdvisorsStep | ProjectLabAdmin/app3_topic_collector/topic_scraper.py:257-270 | each line ends the search, is skipped, or is listed stripped as an advisor |
| TopicScraper.AdvisorsClean | ProjectLabAdmin/app3_topic_collector/topic_scraper.py:263-268 | every advisor is stripped, non-empty, no bullet, names no other section and is no section marker |
| TopicScraper.AdvisorsFromPage | ProjectLabAdmin/app3_topic_collector/topic_scraper.py:257-268 | every advisor is one of the page's lines, stripped |
| TopicScraper.NoSectionNoAdvisors | ProjectLabAdmin/app3_topic_collector/topic_scraper.py:255-263 | a page without the advisors marker lists no advisors |
| BillExtractor.ZFill | BillSummarizer/bill_extractor.py:173 | a text at least as wide as asked is kept; otherwise it is padded to the width |
| BillExtractor.ZFillAvoids | BillSummarizer/bill_extractor.py:173 | padding adds only zeros |
| BillExtractor.ZFillEnds | BillSummarizer/bill_extractor.py:173 | padding keeps non-blank ends non-blank |
| BillExtractor.StripUntouched | BillSummarizer/bill_extractor.py:167 | a text without blank ends is its own strip |
| BillExtractor.SplitThree | BillSummarizer/bill_extractor.py:170-172 | a date of three parts is the parts around two separators, none containing it |
| Text.SplitThreeFields | BillSummarizer/bill_extractor.py:170-173 | three separator-free parts joined by dots split back into those parts |
| BillExtractor.UnifiedText | BillSummarizer/bill_extractor.py:167 | after unifying the separators the date has no `-` or `/` and no blank ends |
| BillExtractor.PaddedDate | BillSummarizer/bill_extractor.py:170-173 | the padded date is three dot-free parts around two dots, with no other separator and no blank ends |
| BillExtractor.NormalizeDateIdempotent | BillSummarizer/bill_extractor.py:164-175 | normalising a normalised date changes nothing |
| BillExtractor.NormalizeAmount | BillSummarizer/bill_extractor.py:96-107 | a normalised amount has no space and no comma |
| BillExtractor.ReplaceAllKeeps | BillSummarizer/bill_extractor.py:98-107 | removing a character introduces no other |
| BillExtractor.RemoveKeepsDigits | BillSummarizer/bill_extractor.py:98-104 | removing a non-digit keeps the digits in order |
| BillExtractor.MapKeepsDigits | BillSummarizer/bill_extractor.py:101-107 | replacing a non-digit by a non-digit keeps the digits in order |
| BillExtractor.NormalizeAmountKeepsDigits | BillSummarizer/bill_extractor.py:96-107 | normalising an amount never changes its digits or their order |
| BillExtractor.RemoveAbsent | BillSummarizer/bill_extractor.py:98 | removing a character that does not occur changes nothing |
| BillExtractor.RemoveAfter | BillSummarizer/bill_extractor.py:101-104 | a prefix without the removed character passes through unchanged |
| BillExtractor.DigitsHaveNoMarks | BillSummarizer/bill_extractor.py:96-107 | a run of digits has no space, dot or comma |
| BillExtractor.NormalizeThousandsDot | BillSummarizer/bill_extractor.py:102-104 | `6.267`-style: a dot before a last group of three digits is dropped as a thousands separator |
| BillExtractor.NormalizeDecimalDot | BillSummarizer/bill_extractor.py:102-107 | a dot before a last part of another length is kept as the decimal point |
| BillExtractor.NormalizeDecimalComma | BillSummarizer/bill_extractor.py:105-107 | `1234,56`-style: the comma becomes the decimal point |
| BillExtractor.NormalizeBothMarks | BillSummarizer/bill_extractor.py:99-101 | `1.234,56`-style: the dots go and the comma becomes the decimal point |
| BillExtractor.FirstStrippedWhere | BillSummarizer/bill_extractor.py:117-131 | the first stripped line satisfying the test, none iff no stripped line does |
| BillExtractor.Take | BillSummarizer/bill_extractor.py:94-126 | a slice `[:n]` is the prefix of length `min(n, len)` |
| BillExtractor.KeywordHits | BillSummarizer/bill_extractor.py:76-131 | one result per keyword |
| BillExtractor.KeywordHitsAt | BillSummarizer/bill_extractor.py:76-131 | the result for the i-th keyword is what that keyword yields |
| BillExtractor.FirstSomeMeaning | BillSummarizer/bill_extractor.py:76-133 | the first keyword result present wins, and there is none exactly when every keyword yields nothing |
| BillExtractor.FindFieldByKeywords | BillSummarizer/bill_extractor.py:68-133 | the loop returns the first value the keywords yield in order, at 0.9, or nothing at 0.0 |
| BillExtractor.MaxAt | BillSummarizer/bill_extractor.py:153 | the index chosen is inside the list |
| BillExtractor.MaxAtMeaning | BillSummarizer/bill_extractor.py:153 | the chosen amount is at least every other and larger than every one before it, as `max` keeps the first of equals |
| BillExtractor.FindLargestAmount | BillSummarizer/bill_extractor.py:152-154 | the scan picks the first largest amount |
| BillExtractor.PatternAmountMeaning | BillSummarizer/bill_extractor.py:143-154 | the pattern search keeps the match of a largest parseable amount, and keeps one iff some match parses |
| BillExtractor.ExtractByPatterns | BillSummarizer/bill_extractor.py:135-162 | the largest parseable amount, the first date normalised, the first provider or address, at 0.6; nothing at 0.0 otherwise |
| BillExtractor.Choose | BillSummarizer/bill_extractor.py:216-220 | the kept value is the keyword one or the fallback; the fallback replaces it only when surer and non-empty |
| BillExtractor.ExtractionLevels | BillSummarizer/bill_extractor.py:108-162 | the keyword search gives 0.9 with a value and 0.0 without; the pattern search 0.6 and 0.0 |
| BillExtractor.FallbackRule | BillSummarizer/bill_extractor.py:214-220 | any keyword value wins; without one the fallback is taken iff it is non-empty; a field ends up uncertain iff only the fallback found it |
| BillExtractor.ExtractionsOf | BillSummarizer/bill_extractor.py:212-220 | one kept extraction per field |
| BillExtractor.ResultKeyDistinct | BillSummarizer/bill_extractor.py:183-208 | distinct fields are stored under distinct keys, none of them a fixed entry's key |
| BillExtractor.FieldIndex | BillSummarizer/bill_extractor.py:202 | every field has its position in the field order |
| BillExtractor.RecordStep | BillSummarizer/bill_extractor.py:222-227 | storing a field sets its key to a non-empty value and notes the key when the value is uncertain |
| BillExtractor.RecordAfterMeaning | BillSummarizer/bill_extractor.py:183-230 | after some fields are stored the record keeps its keys and fixed entries, with each stored field's value or `NOT_FOUND` |
| BillExtractor.UncertainAfterMeaning | BillSummarizer/bill_extractor.py:224-227 | a key is listed as uncertain iff its field is stored with an uncertain value |
| BillExtractor.BillRecordMeaning | BillSummarizer/bill_extractor.py:177-236 | the finished record: the fixed entries, each field's non-empty value or `NOT_FOUND`, and the flag `NEM` iff no value is uncertain |
| BillExtractor.FlagFinish | BillSummarizer/bill_extractor.py:232-234 | only a non-empty list of uncertain keys changes the flag, to `IGEN: ` and the keys joined |
| BillExtractor.ExtractField | BillSummarizer/bill_extractor.py:212-220 | one field's keyword search, then the pattern search when that is empty or unsure |
| BillExtractor.ExtractionsStep | BillSummarizer/bill_extractor.py:212-220 | one more field appends its kept extraction |
| BillExtractor.StoreField | BillSummarizer/bill_extractor.py:222-230 | the loop's record and uncertain list after storing one more field |
| BillExtractor.ExtractBillInfo | BillSummarizer/bill_extractor.py:177-236 | without text the initial record with the error status; otherwise the record of the four fields' kept values |
| Numbers.Truncate | TemperatureMonitoring/src/temperature_processor.py:127 | Python's `int` of a float rounds toward zero: the result is within one of the value, on the side of zero |
| Numbers.NatString | TemperatureMonitoring/loadGasmeterValuesIntoDatabase.py:61 | the decimal digits of a number, without leading zeros, read back as that number |
| Numbers.ParseIntRoundTrip | TemperatureMonitoring/src/temperature_processor.py:96 | `int(str(n)) == n` |
| Numbers.ParseFloatOfInt | TemperatureMonitoring/src/temperature_processor.py:89-95 | `float(str(n)) == n` for an integer literal |
| Numbers.ParseFloatOfDigits | TemperatureMonitoring/src/temperature_processor.py:89-95 | a run of digits, with or without a minus sign, reads as that whole number |
| Numbers.ParseFloatDecimal | TemperatureMonitoring/src/temperature_processor.py:94-95 | `float("w.f")` is the decimal number `w.f`, and `float("-w.f")` its negation |
| Sorting.InsertBy | TemperatureMonitoring/src/temperature_processor.py:209 | inserting into a sorted list keeps it sorted and adds exactly the element |
| Sorting.SortBy | TemperatureMonitoring/src/temperature_processor.py:209 | `sort(key=...)` on a number key gives a sorted permutation of the input |
| Sorting.SortByMembers | TemperatureMonitoring/src/temperature_processor.py:209 | sorting keeps exactly the input's elements |
| Sorting.SortByUnique | TemperatureMonitoring/src/temperature_processor.py:209 | sorting keeps any other key pairwise distinct |
| Sorting.SortByStable | TemperatureMonitoring/src/temperature_processor.py:209 | the sort is stable: the elements with one key keep their input order |
| Sorting.SortByStr | ProjectLabAdmin/app1_data_collector/dlfusion_processor.py:350 | `sort(key=...)` on a string key gives a sorted permutation of the input |
| Sorting.SortByStrStable | ProjectLabAdmin/app1_data_collector/dlfusion_processor.py:350 | the string-key sort is stable |
| Sorting.PermutationUniqueKeys | ProjectLabAdmin/app1_data_collector/dlfusion_processor.py:347-350 | a permutation of records with distinct keys has distinct keys |
| Sorting.SortedSet | ProjectLabAdmin/app1_data_collector/dlfusion_processor.py:467-469 | `sorted(list(s))` is strictly increasing and holds exactly the set's elements |
| Sorting.KeepFirstProperties | TemperatureMonitoring/src/temperature_processor.py:186-200 | the seen-set pass keeps records with distinct, unseen keys, each an input record, and loses no key |
| Sorting.KeepFirstSeen | TemperatureMonitoring/src/temperature_processor.py:199 | a pass over records whose keys were all seen keeps nothing |
| Sorting.KeepFirstKeys | TemperatureMonitoring/src/temperature_processor.py:199-200 | the seen set grows by exactly the kept records' keys |
| Sorting.SeenSetPass | TemperatureMonitoring/src/temperature_processor.py:186-200 | the loop keeps each record whose key is not yet seen and counts the others as duplicates |
| Sorting.DistinctProperties | EViP_ZH_gen/LogAnalyzer.Core/LogAnalyzerService.cs:113-130 | `Distinct` keeps each value once and loses none |
| Sorting.TallyCounts | EViP_ZH_gen/LogAnalyzer.Core/LogAnalyzerService.cs:79 | the tally holds exactly the keys that occur, each with its number of elements |
| Sorting.TallyKeysDistinct | ProjectLabAdmin/app1_data_collector/dlfusion_processor.py:446-454 | the dict's keys in insertion order are pairwise different |
| Sorting.TallyTotal | ProjectLabAdmin/app1_data_collector/dlfusion_processor.py:446-454 | summed over its keys, a tally counts every element once |
| Sorting.InsertUniqueProperties | TemperatureMonitoring/detect_heating.py:88 | adding a value to the increasing group keys keeps them increasing and adds exactly it |
| Sorting.DistinctSorted | TemperatureMonitoring/detect_heating.py:88 | `groupby`'s keys: the distinct values in increasing order |
| Text.ContainsExactly | ProjectLabAdmin/app3_topic_collector/topic_scraper.py:180 | `sub in s` holds iff `sub` sits at some position of `s` |
| Text.Find | ProjectLabAdmin/app1_data_collector/data_loaders.py:222-223 | the first occurrence of a piece, none iff it does not occur |
| Text.Strip | TemperatureMonitoring/src/temperature_processor.py:75-85 | `strip()` leaves no blank at either end |
| Text.StripIdempotent | TemperatureMonitoring/src/temperature_processor.py:75-85 | stripping twice is stripping once |
| Text.SplitParts | TemperatureMonitoring/src/temperature_processor.py:85 | the parts of `split` hold no separator and join back into the text |
| Text.FilterComplete | ProjectLabAdmin/app1_data_collector/dlfusion_processor.py:425-429 | a comprehension with a condition loses no element meeting it |
| Text.FilterPartition | ProjectLabAdmin/app1_data_collector/dlfusion_processor.py:427-428 | splitting the kept elements by a further condition: the two parts add up |
| Text.CollectExactly | BillSummarizer/bill_extractor.py:145-151 | the loop keeps exactly the values that parse, at most one per input |
| Text.FlattenExactly | ProjectLabAdmin/app1_data_collector/data_loaders.py:169-173 | a value is in the concatenation iff it is in one part |
| Text.MinOf | TemperatureMonitoring/generate_calendars.py:66 | `min` is an element and no larger than any |
| Text.MaxOf | TemperatureMonitoring/generate_calendars.py:67 | `max` is an element and no smaller than any |
| Text.TruncDiv | TemperatureMonitoring/src/temperature_statistics.py:122 | division rounding toward zero agrees with Euclidean division on non-negative operands |

## Left out

- Browser automation, HTTP and HTML parsing (Selenium flows, page fetching, the options-menu lookup) are outside the model: pages, tables and menus are given as text or flags.
- File and workbook I/O (JSON load and save, ZIP extraction, CSV and Excel reading and writing, openpyxl styling, column widths, merged cells) is outside the model: its results are parameters (`Option` for a missing file), and worksheet writes are the rows a method returns.
- Plotting, the GUI and the report printing are not modelled; they compute nothing the modelled code reads.
- Logging is not modelled; no modelled result depends on it.
- `datetime.now()` and `pd.Timestamp.now()` are not modelled: only metadata uses them, and that metadata is left out.
- Timestamps are whole seconds (`int`): sub-second parts of `datetime` and pandas values are not modelled, and workbook and JSON rows are sequences of cells and records.
- The ISO-8601 string forms of timestamps are not modelled. Timestamps are integers, and sorting by the ISO string of a naive time is the same order.
- MD5 record hashes are modelled as the hashed content itself, an injective key: a hash collision never merges two different records in the model.
- `strptime`, `fromisoformat` and `fromtimestamp` local-time conversion are not modelled beyond the `%m/%d/%Y %H:%M` format the gas-meter loader reads, and that format only over ASCII digits (see `GasmeterLoader.DigitField`).
- Floating-point statistics (means, completeness percentages, hour conversions, `.1f` formatting) are not modelled, apart from the integer parts the properties need.
- HeatingCycles.DurationPerDay: sums each day's cycle durations in whole minutes; the source divides each by 60.0 into float hours before summing, which the model does not reproduce.
- HeatingCycles.GetDeviceData: sorts with a stable sort; pandas' default `sort_values` is quicksort, which is not stable, so readings with equal timestamps may come out in another order in the source.
- TemperatureStatistics.MidTimestamp: the midpoint `min + (max - min) / 2` is floored to whole seconds; the source keeps a half second when the span is odd.
- GasmeterLoader.DigitField: takes ASCII digits only; `strptime`'s `\d` also matches other Unicode decimal digits, so a date written with them is read by the source and rejected by the model.
- GasmeterLoader.ParseDateTime: reads every field with ASCII digits only, so a date or time written with other Unicode decimal digits, which `strptime` accepts, is rejected by the model. The joined text, the space-padded day of `%d` (`3/ 5/2024`) and a day whose padding is the joining space are modelled.
- DataLoaders.CourseCodeAt: the `\d+` of `BMEVI[A-Z]+\d+` takes ASCII digits only; Python's `\d` on `str` also matches other Unicode decimal digits, so such a file name yields a code in the source and `UNKNOWN` in the model.
- TopicScraper.FirstNumber: reads a run of ASCII digits; Python's `\d+` and `int()` also take other Unicode decimal digits, so a limit written with them is found by the source only.
- BillExtractor.FindFieldByKeywords: the address test `\d{4}` (`IsAddressLine`, used after an address keyword) takes ASCII digits only; Python's `\d` also matches other Unicode decimal digits.
- Numbers.ParseFloat: reads plain decimal literals only (sign, ASCII digits, one point); Python's `float()` also accepts exponents, `inf`, `nan`, underscores and non-ASCII digits, which the model rejects.
- Numbers.ParseInt: reads an optional sign and ASCII digits only; Python's `int()` also accepts underscores and non-ASCII decimal digits.
- TemperatureProcessor.ParseLine: inherits the `float()`/`int()` limits above, so a line with an exponent or a non-ASCII digit is skipped in the model but kept by the source.
- GasmeterLoader.RowRecord: inherits the `float()` limits above for the value field.
- GasmeterLoader.RowRecord: splits a row on every `,`; the source's `csv.reader` honours quoted fields, so a quoted value containing a comma splits differently in the model.
- LogAnalyzer.IsWordChar: the `\b` word test covers ASCII, Latin-1 letters and digits and the Hungarian ő/ű letters; .NET's `\w` covers every Unicode letter, digit and connector.
- LogAnalyzer.TimestampShape: takes ASCII digits only; .NET's `\d` also matches other Unicode decimal digits.
- Text.Upper: maps Basic Latin, Latin-1 and the Hungarian double-acute letters only; Python's full Unicode case mapping (e.g. `ß` to `SS`) is not modelled.
- Text.Lower: maps the same letters only; full Unicode lower-casing is not modelled.
- Text.EqualsIgnoreCase: compares over the modelled letters only; .NET's `OrdinalIgnoreCase` folds every cased character.
- DataLoaders.ImportNameAt: matches `jegyimport_` case-insensitively over the modelled letters only; Python's `re.IGNORECASE` also matches special case variants such as the dotless `ı` and the Kelvin sign.
- The bill extractor's regular expressions that find amounts, dates, providers and addresses in a text are parameters (what each pattern matches); the line tests and all normalisation around them are modelled.
- BillExtractor.FindLargestAmount: compares exact reals; the source compares binary floats, which can tie amounts that differ beyond double precision.
- The C# thread-safety test and `null` arguments are not modelled: the model has no concurrency, and its sequences cannot be null.
- Where tests disagree with the code, the code is modelled. Whitespace-only users are counted by `GetUserActivitySummary`. `IsValidLogFormat` checks digit shapes, not calendar validity. The timestamp-range check rejects the value 1791.
- The topic scraper's `_extract_courses` and `_scrape_topic_details` drive a browser and are not modelled.
