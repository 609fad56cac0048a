// Reading the thermometers' CSV exports: one file per device export, whose
// first line names the device, whose second is a header and whose remaining
// lines are `timestamp;temperature;humidity;battery_mv` records. Files of the
// same device are merged, exact duplicates dropped and the records ordered by
// time.

module TemperatureProcessor {
  import opened Text
  import Numbers
  import Sorting

  /** 2000-01-01 00:00:00 UTC: earlier timestamps are taken for faulty clocks. */
  const MinTimestamp: int := 946684800
  /** About 2100-01-01: later timestamps are out of range. */
  const MaxTimestamp: int := 4102444800

  /** One reading; the timestamp is in whole seconds. */
  datatype Record = Record(timestamp: int, temperature: real, humidity: real, batteryMv: int)

  datatype TimestampError = BeforeMin(seconds: int) | AfterMax(seconds: int)

  datatype ParseError = InsufficientData(lineCount: nat)

  /** A parsed export, and after merging the records of one device. */
  datatype CsvFile = CsvFile(deviceName: string, data: seq<Record>)

  function Timestamp(r: Record): int { r.timestamp }

  /** Records are deduplicated on all four values, i.e. on the record itself. */
  function RecordKey(r: Record): Record { r }

  function NameKey(n: string): string { n }

  /**
   * `_csv_timestamp_to_datetime`: the value is truncated to whole seconds;
   * it is accepted exactly when the truncated value is in range.
   */
  function CsvTimestamp(x: real): (r: Result<int, TimestampError>)
    ensures r.Ok? <==> MinTimestamp as real <= x < (MaxTimestamp + 1) as real
    ensures r.Ok? ==> r.value as real <= x < r.value as real + 1.0
    ensures r.Err? ==> (r.error.BeforeMin? <==> x < MinTimestamp as real)
  {
    var seconds := Numbers.Truncate(x);
    if seconds < MinTimestamp then Err(BeforeMin(seconds))
    else if seconds > MaxTimestamp then Err(AfterMax(seconds))
    else Ok(seconds)
  }

  /** The fields of a data line: the stripped line split on `;`. */
  function Fields(line: string): seq<string>
  {
    Split(Strip(line), ';')
  }

  /** A line is tried as a record only when it has at least four fields. */
  predicate Candidate(line: string)
  {
    |Fields(line)| >= 4
  }

  /** The record on a data line, or `None` when the line is skipped. */
  function ParseLine(line: string): (r: Option<Record>)
    ensures r.Some? ==> Candidate(line)
    ensures r.Some? ==> MinTimestamp <= r.value.timestamp <= MaxTimestamp
    ensures r.Some? ==>
      var raw := Numbers.ParseFloat(Fields(line)[0]);
      raw.Some? && r.value.timestamp as real <= raw.value < r.value.timestamp as real + 1.0
  {
    var parts := Fields(line);
    if |parts| < 4 then None
    else
      var raw := Numbers.ParseFloat(parts[0]);
      var temperature := Numbers.ParseFloat(parts[1]);
      var humidity := Numbers.ParseFloat(parts[2]);
      var battery := Numbers.ParseInt(parts[3]);
      if raw.None? || temperature.None? || humidity.None? || battery.None? then None
      else
        var ts := CsvTimestamp(raw.value);
        if ts.Err? then None else Some(Record(ts.value, temperature.value, humidity.value, battery.value))
  }

  /** The records of the data lines, in file order. */
  function Records(lines: seq<string>): seq<Record>
  {
    Collect(lines, ParseLine)
  }

  /** Lines with at least four fields that still fail to parse: the warned-about lines. */
  function Invalid(lines: seq<string>): nat
  {
    if |lines| == 0 then 0
    else
      var line := lines[|lines| - 1];
      Invalid(lines[..|lines| - 1]) + if Candidate(line) && ParseLine(line).None? then 1 else 0
  }

  /** Lines with fewer than four fields, skipped without a warning. */
  function Short(lines: seq<string>): nat
  {
    if |lines| == 0 then 0
    else Short(lines[..|lines| - 1]) + if Candidate(lines[|lines| - 1]) then 0 else 1
  }

  /** Every data line is a record, an invalid line or a short line. */
  lemma {:induction false} RecordsCount(lines: seq<string>)
    ensures |Records(lines)| + Invalid(lines) + Short(lines) == |lines|
  {
    if |lines| > 0 {
      RecordsCount(lines[..|lines| - 1]);
    }
  }

  /** The records are exactly the values of the lines that parse. */
  lemma RecordsExactly(lines: seq<string>)
    ensures forall x :: x in Records(lines) <==> exists i | 0 <= i < |lines| :: ParseLine(lines[i]) == Some(x)
  {
    CollectExactly(lines, ParseLine);
  }

  lemma LineStep(lines: seq<string>, line: string)
    ensures Records(lines + [line]) == Records(lines) + if ParseLine(line).Some? then [ParseLine(line).value] else []
    ensures Invalid(lines + [line]) == Invalid(lines) + if Candidate(line) && ParseLine(line).None? then 1 else 0
  {
    assert (lines + [line])[..|lines|] == lines;
    CollectSnoc(lines, line, ParseLine);
  }

  /** `LineStep` for the prefix of `body` ending at line `k`. */
  lemma LineStepAt(body: seq<string>, k: nat)
    requires k < |body|
    ensures Records(body[..k + 1]) == Records(body[..k]) + if ParseLine(body[k]).Some? then [ParseLine(body[k]).value] else []
    ensures Invalid(body[..k + 1]) == Invalid(body[..k]) + if Candidate(body[k]) && ParseLine(body[k]).None? then 1 else 0
  {
    assert body[..k + 1] == body[..k] + [body[k]];
    LineStep(body[..k], body[k]);
  }

  /** `parse_csv_file`: fewer than three lines is an error; the device is the stripped first line. */
  function ParseCsv(lines: seq<string>): (r: Result<CsvFile, ParseError>)
    ensures r.Err? <==> |lines| < 3
    ensures r.Ok? ==> r.value.deviceName == Strip(lines[0])
  {
    if |lines| < 3 then Err(InsufficientData(|lines|))
    else Ok(CsvFile(Strip(lines[0]), Records(lines[2..])))
  }

  /**
   * The parsing loop of `parse_csv_file` over the file's lines (without
   * their line ends being significant); `invalid` is its warning counter.
   */
  method ParseCsvFile(lines: seq<string>) returns (r: Result<CsvFile, ParseError>, invalid: nat)
    ensures r == ParseCsv(lines)
    ensures invalid == if |lines| < 3 then 0 else Invalid(lines[2..])
  {
    if |lines| < 3 {
      return Err(InsufficientData(|lines|)), 0;
    }
    var deviceName := Strip(lines[0]);
    var body := lines[2..];
    var data: seq<Record> := [];
    invalid := 0;
    for k := 0 to |body|
      invariant data == Records(body[..k])
      invariant invalid == Invalid(body[..k])
    {
      LineStepAt(body, k);
      var parts := Fields(body[k]);
      if |parts| >= 4 {
        var record := ParseLine(body[k]);
        if record.Some? {
          data := data + [record.value];
        } else {
          invalid := invalid + 1;
        }
      }
    }
    assert body[..|body|] == body;
    r := Ok(CsvFile(deviceName, data));
  }

  type Parsed = Result<CsvFile, ParseError>

  /** Every extracted file run through `parse_csv_file`. */
  function ParseAll(files: seq<seq<string>>): (r: seq<Parsed>)
    ensures |r| == |files| && forall k | 0 <= k < |files| :: r[k] == ParseCsv(files[k])
  {
    seq(|files|, k requires 0 <= k < |files| => ParseCsv(files[k]))
  }

  /** The device names of the files that parsed, in file order, repeats included. */
  function NamesOf(parsed: seq<Parsed>): seq<string>
  {
    if |parsed| == 0 then []
    else
      var last := parsed[|parsed| - 1];
      NamesOf(parsed[..|parsed| - 1]) + if last.Ok? then [last.value.deviceName] else []
  }

  /** The devices in order of first appearance (the merge dictionary's key order). */
  function DeviceNames(parsed: seq<Parsed>): seq<string>
  {
    Sorting.KeepFirst(NamesOf(parsed), NameKey, {})
  }

  /** The concatenated records of every parsed file of device `name`. */
  function DeviceRecords(parsed: seq<Parsed>, name: string): seq<Record>
  {
    if |parsed| == 0 then []
    else
      var last := parsed[|parsed| - 1];
      DeviceRecords(parsed[..|parsed| - 1], name)
        + if last.Ok? && last.value.deviceName == name then last.value.data else []
  }

  /** First occurrences only, then stably ordered by timestamp. */
  function Tidy(rs: seq<Record>): seq<Record>
  {
    Sorting.SortBy(Sorting.KeepFirst(rs, RecordKey, {}), Timestamp)
  }

  /** One merged, deduplicated, ordered export per device. */
  function Merged(parsed: seq<Parsed>): seq<CsvFile>
  {
    var names := DeviceNames(parsed);
    seq(|names|, j requires 0 <= j < |names| => CsvFile(names[j], Tidy(DeviceRecords(parsed, names[j]))))
  }

  /** `process_zip_file` after extraction. */
  function ProcessZip(files: seq<seq<string>>): seq<CsvFile>
  {
    Merged(ParseAll(files))
  }

  lemma NameKeys(s: seq<string>)
    ensures forall n :: n in Sorting.KeysOf(s, NameKey) <==> n in s
  {
    forall n | n in s ensures n in Sorting.KeysOf(s, NameKey) {
      assert NameKey(n) == n;
    }
  }

  /** A device no parsed file names has no records. */
  lemma {:induction false} UnnamedRecords(parsed: seq<Parsed>, name: string)
    requires name !in NamesOf(parsed)
    ensures DeviceRecords(parsed, name) == []
  {
    if |parsed| > 0 {
      UnnamedRecords(parsed[..|parsed| - 1], name);
    }
  }

  /** The merge loop's step: one more parse result extends the names and the records. */
  lemma MergeStep(parsed: seq<Parsed>, p: Parsed)
    ensures NamesOf(parsed + [p]) == NamesOf(parsed) + if p.Ok? then [p.value.deviceName] else []
    ensures forall n :: (DeviceRecords(parsed + [p], n)
      == DeviceRecords(parsed, n) + if p.Ok? && p.value.deviceName == n then p.value.data else [])
  {
    assert (parsed + [p])[..|parsed|] == parsed;
  }

  /** What the merge loop has built from the parse results so far. */
  ghost predicate MergeState(names: seq<string>, data: map<string, seq<Record>>, parsed: seq<Parsed>)
  {
    && names == DeviceNames(parsed)
    && (forall n :: n in data <==> n in NamesOf(parsed))
    && (forall n | n in data :: data[n] == DeviceRecords(parsed, n))
  }

  /** One more parse result adds its device to the key order when the device is new. */
  lemma DeviceNamesStep(parsed: seq<Parsed>, p: Parsed)
    ensures DeviceNames(parsed + [p]) ==
      if p.Ok? && p.value.deviceName !in NamesOf(parsed) then DeviceNames(parsed) + [p.value.deviceName]
      else DeviceNames(parsed)
  {
    MergeStep(parsed, p);
    if p.Ok? {
      NameKeys(NamesOf(parsed));
      Sorting.KeepFirstAppend(NamesOf(parsed), p.value.deviceName, NameKey, {});
    } else {
      assert NamesOf(parsed) + [] == NamesOf(parsed);
    }
  }

  /** One parse result of the merge loop: a new device is appended to the names, and its records to its list. */
  lemma MergeStateStep(names: seq<string>, data: map<string, seq<Record>>, all: seq<Parsed>, i: nat)
    requires i < |all| && MergeState(names, data, all[..i])
    ensures var p := all[i];
            if p.Ok? && p.value.deviceName in data then
              MergeState(names, data[p.value.deviceName := data[p.value.deviceName] + p.value.data], all[..i + 1])
            else if p.Ok? then
              MergeState(names + [p.value.deviceName], data[p.value.deviceName := p.value.data], all[..i + 1])
            else
              MergeState(names, data, all[..i + 1])
  {
    var prefix, p := all[..i], all[i];
    assert all[..i + 1] == prefix + [p];
    if p.Ok? && p.value.deviceName in data {
      MergeKnownDevice(names, data, prefix, p);
    } else if p.Ok? {
      MergeNewDevice(names, data, prefix, p);
    } else {
      MergeStep(prefix, p);
      DeviceNamesStep(prefix, p);
      assert NamesOf(prefix) + [] == NamesOf(prefix);
      forall n | n in data ensures data[n] == DeviceRecords(prefix + [p], n) {
      }
    }
  }

  lemma MergeKnownDevice(names: seq<string>, data: map<string, seq<Record>>, prefix: seq<Parsed>, p: Parsed)
    requires MergeState(names, data, prefix) && p.Ok? && p.value.deviceName in data
    ensures MergeState(names, data[p.value.deviceName := data[p.value.deviceName] + p.value.data], prefix + [p])
  {
    MergeStep(prefix, p);
    DeviceNamesStep(prefix, p);
    var name := p.value.deviceName;
    var data' := data[name := data[name] + p.value.data];
    forall n ensures n in data' <==> n in NamesOf(prefix + [p]) {
    }
    forall n | n in data' ensures data'[n] == DeviceRecords(prefix + [p], n) {
    }
  }

  lemma MergeNewDevice(names: seq<string>, data: map<string, seq<Record>>, prefix: seq<Parsed>, p: Parsed)
    requires MergeState(names, data, prefix) && p.Ok? && p.value.deviceName !in data
    ensures MergeState(names + [p.value.deviceName], data[p.value.deviceName := p.value.data], prefix + [p])
  {
    MergeStep(prefix, p);
    DeviceNamesStep(prefix, p);
    var name := p.value.deviceName;
    var data' := data[name := p.value.data];
    UnnamedRecords(prefix, name);
    assert DeviceRecords(prefix + [p], name) == [] + p.value.data;
    forall n ensures n in data' <==> n in NamesOf(prefix + [p]) {
    }
    forall n | n in data' ensures data'[n] == DeviceRecords(prefix + [p], n) {
    }
  }

  /** The seen-set pass of `process_zip_file` over one device's records. */
  method RemoveDuplicates(rs: seq<Record>) returns (unique: seq<Record>)
    ensures unique == Sorting.KeepFirst(rs, RecordKey, {})
  {
    unique := [];
    var seen: set<Record> := {};
    for k := 0 to |rs|
      invariant unique == Sorting.KeepFirst(rs[..k], RecordKey, {})
      invariant seen == Sorting.KeysOf(rs[..k], RecordKey)
    {
      Sorting.KeepFirstStep(rs, k, RecordKey, {});
      if rs[k] !in seen {
        seen := seen + {rs[k]};
        unique := unique + [rs[k]];
      }
    }
    assert rs[..|rs|] == rs;
  }

  /**
   * The merge loop of `process_zip_file`: parse every file, skipping the ones
   * that fail, and collect each device's records in first-appearance order.
   */
  method MergeFiles(files: seq<seq<string>>) returns (names: seq<string>, data: map<string, seq<Record>>)
    ensures names == DeviceNames(ParseAll(files))
    ensures forall n :: n in data <==> n in names
    ensures forall n | n in data :: data[n] == DeviceRecords(ParseAll(files), n)
  {
    ghost var all := ParseAll(files);
    names := [];
    data := map[];
    for i := 0 to |files|
      invariant MergeState(names, data, all[..i])
    {
      MergeStateStep(names, data, all, i);
      var parsed, _ := ParseCsvFile(files[i]);
      if parsed.Ok? {
        var name := parsed.value.deviceName;
        if name in data {
          data := data[name := data[name] + parsed.value.data];
        } else {
          names := names + [name];
          data := data[name := parsed.value.data];
        }
      }
    }
    assert all[..|files|] == all;
    Sorting.KeepFirstKeys(NamesOf(all), NameKey, {});
    NameKeys(NamesOf(all));
    NameKeys(names);
  }

  /** `process_zip_file`: merge, then deduplicate and sort each device's records. */
  method ProcessZipFile(files: seq<seq<string>>) returns (out: seq<CsvFile>)
    ensures out == ProcessZip(files)
  {
    var names, data := MergeFiles(files);
    out := TidyAll(names, data);
    MergedIs(ParseAll(files), names, data, out);
  }

  /** The per-device loop of `process_zip_file`, in the merge dictionary's order. */
  method TidyAll(names: seq<string>, data: map<string, seq<Record>>) returns (out: seq<CsvFile>)
    requires forall n | n in names :: n in data
    ensures |out| == |names|
    ensures forall j | 0 <= j < |names| :: out[j] == CsvFile(names[j], Tidy(data[names[j]]))
  {
    out := [];
    for k := 0 to |names|
      invariant |out| == k
      invariant forall j | 0 <= j < k :: out[j] == CsvFile(names[j], Tidy(data[names[j]]))
    {
      var tidy := TidyRecords(data[names[k]]);
      var file := CsvFile(names[k], tidy);
      assert forall j | 0 <= j < k :: (out + [file])[j] == out[j];
      out := out + [file];
    }
  }

  /** One device's records deduplicated, then sorted in place by timestamp. */
  method TidyRecords(rs: seq<Record>) returns (r: seq<Record>)
    ensures r == Tidy(rs)
  {
    r := RemoveDuplicates(rs);
    r := Sorting.SortBy(r, Timestamp);
  }

  lemma MergedIs(parsed: seq<Parsed>, names: seq<string>, data: map<string, seq<Record>>, out: seq<CsvFile>)
    requires names == DeviceNames(parsed)
    requires forall n :: n in data <==> n in names
    requires forall n | n in data :: data[n] == DeviceRecords(parsed, n)
    requires |out| == |names|
    requires forall j | 0 <= j < |names| :: out[j] == CsvFile(names[j], Tidy(data[names[j]]))
    ensures out == Merged(parsed)
  {
    var expected := Merged(parsed);
    forall j | 0 <= j < |out| ensures out[j] == expected[j] {
      assert names[j] in data;
    }
  }

  /** A device is named iff some file of it parsed. */
  lemma {:induction false} NamesOfExactly(parsed: seq<Parsed>)
    ensures forall n :: n in NamesOf(parsed) <==>
      exists k | 0 <= k < |parsed| :: parsed[k].Ok? && parsed[k].value.deviceName == n
  {
    if |parsed| > 0 {
      var front := parsed[..|parsed| - 1];
      NamesOfExactly(front);
      forall n ensures n in NamesOf(parsed) <==>
        exists k | 0 <= k < |parsed| :: parsed[k].Ok? && parsed[k].value.deviceName == n
      {
        if k :| 0 <= k < |parsed| && parsed[k].Ok? && parsed[k].value.deviceName == n {
          if k < |front| { assert front[k] == parsed[k]; }
        }
        if n in NamesOf(front) {
          var k :| 0 <= k < |front| && front[k].Ok? && front[k].value.deviceName == n;
          assert parsed[k] == front[k];
        }
      }
    }
  }

  /** A device's merged records are exactly the records of its parsed files. */
  lemma {:induction false} DeviceRecordsExactly(parsed: seq<Parsed>, name: string)
    ensures forall x :: x in DeviceRecords(parsed, name) <==>
      exists k | 0 <= k < |parsed| :: parsed[k].Ok? && parsed[k].value.deviceName == name && x in parsed[k].value.data
  {
    if |parsed| > 0 {
      var front := parsed[..|parsed| - 1];
      DeviceRecordsExactly(front, name);
      forall x ensures x in DeviceRecords(parsed, name) <==>
        exists k | 0 <= k < |parsed| :: parsed[k].Ok? && parsed[k].value.deviceName == name && x in parsed[k].value.data
      {
        if k :| 0 <= k < |parsed| && parsed[k].Ok? && parsed[k].value.deviceName == name && x in parsed[k].value.data {
          if k < |front| { assert front[k] == parsed[k]; }
        }
        if x in DeviceRecords(front, name) {
          var k :| 0 <= k < |front| && front[k].Ok? && front[k].value.deviceName == name && x in front[k].value.data;
          assert parsed[k] == front[k];
        }
      }
    }
  }

  /** Tidying keeps every distinct record exactly once and orders them by time. */
  lemma TidyProperties(rs: seq<Record>)
    ensures Sorting.SortedBy(Tidy(rs), Timestamp)
    ensures forall x :: x in Tidy(rs) <==> x in rs
    ensures forall x :: multiset(Tidy(rs))[x] <= 1
  {
    var unique := Sorting.KeepFirst(rs, RecordKey, {});
    Sorting.KeepFirstProperties(rs, RecordKey, {});
    Sorting.DistinctOnce(unique);
    Sorting.SortByMembers(unique, Timestamp);
    forall x | x in rs ensures x in unique {
      assert RecordKey(x) in Sorting.KeysOf(rs, RecordKey);
      var y :| y in unique && RecordKey(y) == RecordKey(x);
    }
  }

  /** Each device appears once in a merge. */
  lemma MergedNamesUnique(parsed: seq<Parsed>)
    ensures var out := Merged(parsed);
      forall i, j | 0 <= i < j < |out| :: out[i].deviceName != out[j].deviceName
  {
    Sorting.KeepFirstProperties(NamesOf(parsed), NameKey, {});
  }

  /** The devices of a merge are exactly the devices of the files that parsed. */
  lemma MergedNames(parsed: seq<Parsed>)
    ensures var out := Merged(parsed);
      (set i | 0 <= i < |out| :: out[i].deviceName)
      == (set k | 0 <= k < |parsed| && parsed[k].Ok? :: parsed[k].value.deviceName)
  {
    var out := Merged(parsed);
    var names := DeviceNames(parsed);
    Sorting.KeepFirstKeys(NamesOf(parsed), NameKey, {});
    NameKeys(NamesOf(parsed));
    NameKeys(names);
    NamesOfExactly(parsed);
    var left := set i | 0 <= i < |out| :: out[i].deviceName;
    var right := set k | 0 <= k < |parsed| && parsed[k].Ok? :: parsed[k].value.deviceName;
    forall n | n in right ensures n in left {
      var k :| 0 <= k < |parsed| && parsed[k].Ok? && parsed[k].value.deviceName == n;
      assert n in NamesOf(parsed);
      assert n in names;
      var i :| 0 <= i < |names| && names[i] == n;
      assert out[i].deviceName == n;
    }
    forall n | n in left ensures n in right {
      var i :| 0 <= i < |out| && out[i].deviceName == n;
      assert names[i] in names;
      var k :| 0 <= k < |parsed| && parsed[k].Ok? && parsed[k].value.deviceName == n;
    }
  }

  /** Each device's merged records: all records of its files, each distinct record once, by time. */
  lemma MergedRecords(parsed: seq<Parsed>)
    ensures var out := Merged(parsed);
      forall i | 0 <= i < |out| ::
        Sorting.SortedBy(out[i].data, Timestamp)
        && (forall x :: multiset(out[i].data)[x] <= 1)
        && forall x :: x in out[i].data <==>
             exists k | 0 <= k < |parsed| :: parsed[k].Ok? && parsed[k].value.deviceName == out[i].deviceName
                                             && x in parsed[k].value.data
  {
    var out := Merged(parsed);
    var names := DeviceNames(parsed);
    forall i | 0 <= i < |out|
      ensures Sorting.SortedBy(out[i].data, Timestamp)
      ensures forall x :: multiset(out[i].data)[x] <= 1
      ensures forall x :: x in out[i].data <==>
             exists k | 0 <= k < |parsed| :: parsed[k].Ok? && parsed[k].value.deviceName == out[i].deviceName
                                             && x in parsed[k].value.data
    {
      TidyProperties(DeviceRecords(parsed, names[i]));
      DeviceRecordsExactly(parsed, names[i]);
    }
  }
}
