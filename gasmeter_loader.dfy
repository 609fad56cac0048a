// Loading gas-meter readings (`date,time,value` rows with dates written
// M/D/YYYY and times H:MM) into the `gasmeter` section of the temperature
// database: one record per reading time, kept in time order.

module GasmeterLoader {
  import opened Text
  import Numbers
  import Sorting

  /** A minute-resolution local date and time, as `strptime` returns it. */
  datatype DateTime = DateTime(year: int, month: int, day: int, hour: int, minute: int)

  datatype GasRecord = GasRecord(timestamp: DateTime, value: real)

  /** The `gasmeter` section: records, the update time and the record count. */
  datatype GasSection = GasSection(records: seq<GasRecord>, lastUpdated: int, totalRecords: Option<nat>)

  const HeaderKeywords: seq<string> := ["date", "time", "meter", "value", "gas"]

  predicate IsLeap(y: int)
  {
    y % 4 == 0 && (y % 100 != 0 || y % 400 == 0)
  }

  function DaysInMonth(y: int, m: int): int
    requires 1 <= m <= 12
  {
    if m == 2 then (if IsLeap(y) then 29 else 28)
    else if m == 4 || m == 6 || m == 9 || m == 11 then 30
    else 31
  }

  /** A date and time `datetime` accepts. */
  predicate ValidDateTime(dt: DateTime)
  {
    1 <= dt.year <= 9999 && 1 <= dt.month <= 12 && 1 <= dt.day <= DaysInMonth(dt.year, dt.month)
    && 0 <= dt.hour < 24 && 0 <= dt.minute < 60
  }

  /** A field of `lo` to `hi` ASCII digits, and its value. */
  function DigitField(s: string, lo: nat, hi: nat): (r: Option<nat>)
    ensures r.Some? ==> lo <= |s| <= hi && AllDigits(s)
  {
    if lo <= |s| <= hi && AllDigits(s) then Some(DigitsValue(s)) else None
  }

  /**
   * A `%d` day: one or two ASCII digits, or a space and a digit from 1 to 9.
   */
  function DayField(s: string): (r: Option<nat>)
    ensures DigitField(s, 1, 2).Some? ==> r == DigitField(s, 1, 2)
    ensures |s| == 2 && s[0] == ' ' ==> (r.Some? <==> '1' <= s[1] <= '9')
    ensures |s| == 2 && s[0] == ' ' && r.Some? ==> r.value == s[1] as int - '0' as int
    ensures r.Some? ==> DigitField(s, 1, 2).Some? || (|s| == 2 && s[0] == ' ')
  {
    if |s| == 2 && s[0] == ' ' && '1' <= s[1] <= '9' then Some(s[1] as int - '0' as int)
    else DigitField(s, 1, 2)
  }

  /**
   * `_parse_datetime`: `strptime(date + " " + time, "%m/%d/%Y %H:%M")`, on
   * the joined text.
   */
  function ParseDateTime(date: string, time: string): (r: Option<DateTime>)
    ensures r.Some? ==> ValidDateTime(r.value)
  {
    Strptime(date + " " + time)
  }

  /**
   * `strptime(s, "%m/%d/%Y %H:%M")`. CPython matches `s` against the pattern
   * `(%m)/(%d)/(\d\d\d\d)\s+(%H):(%M)` and fails unless the match reaches the
   * end of `s`. Every field but the minute is followed by a separator that no
   * field can hold, so a match exists iff `s` has exactly two `/`, the text
   * after the second is four digits, whitespace, then `hour:minute`, and each
   * field has the form its alternatives allow: one or two digits (the day
   * also a space and a digit), which the calendar check then bounds.
   */
  function Strptime(s: string): (r: Option<DateTime>)
    ensures r.Some? ==> ValidDateTime(r.value)
  {
    var d := Split(s, '/');
    if |d| != 3 || |d[2]| < 5 || !IsSpace(d[2][4]) then None
    else
      var t := Split(TrimStart(d[2][4..]), ':');
      if |t| != 2 then None
      else Assemble(DigitField(d[0], 1, 2), DayField(d[1]), DigitField(d[2][..4], 4, 4),
                    DigitField(t[0], 1, 2), DigitField(t[1], 1, 2))
  }

  /** The date and time the fields give, if all were read and it exists. */
  function Assemble(month: Option<nat>, day: Option<nat>, year: Option<nat>, hour: Option<nat>, minute: Option<nat>): (r: Option<DateTime>)
    ensures r.Some? ==> ValidDateTime(r.value)
  {
    if month.None? || day.None? || year.None? || hour.None? || minute.None? then None
    else
      var dt := DateTime(year.value, month.value, day.value, hour.value, minute.value);
      if ValidDateTime(dt) then Some(dt) else None
  }

  /** `dt` written the way the loader reads it: `M/D/YYYY` and `H:MM`. */
  function FormatDate(dt: DateTime): string
    requires ValidDateTime(dt)
  {
    Numbers.NatString(dt.month) + "/" + Numbers.NatString(dt.day) + "/" + Pad4(dt.year)
  }

  function FormatTime(dt: DateTime): string
    requires ValidDateTime(dt)
  {
    Numbers.NatString(dt.hour) + ":" + Pad2(dt.minute)
  }

  function Pad2(n: nat): (r: string)
    requires n < 100
    ensures |r| == 2 && AllDigits(r) && DigitsValue(r) == n
  {
    var r := [(n / 10 + '0' as int) as char, (n % 10 + '0' as int) as char];
    assert r[..1] == [r[0]];
    r
  }

  function Pad4(n: nat): (r: string)
    requires n < 10000
    ensures |r| == 4 && AllDigits(r) && DigitsValue(r) == n
  {
    var r := Pad2(n / 100) + Pad2(n % 100);
    assert r[..3] == Pad2(n / 100) + [r[2]];
    assert r[..3][..2] == Pad2(n / 100);
    r
  }

  /** The text `m/d/y h:mi`, the pattern's layout with one space before the hour. */
  function Laid(m: string, d: string, y: string, h: string, mi: string): string
  {
    m + ("/" + (d + ("/" + (y + (" " + (h + (":" + mi)))))))
  }

  /** The two `/` of the layout split it into month, day and the rest. */
  lemma LaidSlashes(m: string, d: string, y: string, h: string, mi: string)
    requires '/' !in m && '/' !in d && AllDigits(y) && AllDigits(h) && AllDigits(mi)
    ensures Split(Laid(m, d, y, h, mi), '/') == [m, d, y + (" " + (h + (":" + mi)))]
  {
    var c := y + (" " + (h + (":" + mi)));
    NoSeparatorInDigits(y, '/');
    NoSeparatorInDigits(h, '/');
    NoSeparatorInDigits(mi, '/');
    assert '/' !in c;
    SplitThreeFields(m, d, c, '/');
    assert Laid(m, d, y, h, mi) == m + ['/'] + d + ['/'] + c;
  }

  /** After the year, the whitespace is skipped and the `:` splits hour from minute. */
  lemma LaidTime(y: string, h: string, mi: string)
    requires |y| == 4 && |h| > 0 && AllDigits(h) && AllDigits(mi)
    ensures var c := y + (" " + (h + (":" + mi)));
      |c| >= 5 && c[4] == ' ' && c[..4] == y && Split(TrimStart(c[4..]), ':') == [h, mi]
  {
    var hm := h + (":" + mi);
    var c := y + (" " + hm);
    assert c[..4] == y;
    assert c[4..] == " " + hm;
    assert hm[0] == h[0];
    SkipOneSpace(hm);
    HourMinute(h, mi);
    assert hm == h + ":" + mi;
  }

  /** One space in front of a text that starts with a digit is all `TrimStart` removes. */
  lemma SkipOneSpace(x: string)
    requires |x| > 0 && IsDigit(x[0])
    ensures TrimStart(" " + x) == x
  {
    assert (" " + x)[1..] == x;
  }

  lemma HourMinute(h: string, mi: string)
    requires |h| > 0 && AllDigits(h) && AllDigits(mi)
    ensures Split(h + ":" + mi, ':') == [h, mi]
  {
    NoSeparatorInDigits(h, ':');
    NoSeparatorInDigits(mi, ':');
    SplitLead(h, mi, ':');
    SplitDigits(mi, ':');
  }

  /** The layout written left to right, with the date and the time joined by a space. */
  lemma LaidText(m: string, d: string, y: string, h: string, mi: string)
    ensures (m + "/" + d + "/" + y) + " " + (h + ":" + mi) == Laid(m, d, y, h, mi)
    ensures (m + "/") + " " + (d + "/" + y + " " + (h + ":" + mi)) == Laid(m, " " + d, y, h, mi)
    ensures (m + "/ " + d + "/" + y) + " " + (h + ":" + mi) == Laid(m, " " + d, y, h, mi)
  {
  }

  /** On the layout, `strptime` reads each field from its own place. */
  lemma StrptimeFields(m: string, d: string, y: string, h: string, mi: string)
    requires '/' !in m && '/' !in d && |y| == 4 && AllDigits(y) && |h| > 0 && AllDigits(h) && AllDigits(mi)
    ensures Strptime(Laid(m, d, y, h, mi))
      == Assemble(DigitField(m, 1, 2), DayField(d), DigitField(y, 4, 4), DigitField(h, 1, 2), DigitField(mi, 1, 2))
  {
    LaidSlashes(m, d, y, h, mi);
    LaidTime(y, h, mi);
  }

  /** A number below 100, written without padding, is a one- or two-digit field of its value. */
  lemma NatField(n: nat)
    requires n < 100
    ensures DigitField(Numbers.NatString(n), 1, 2) == Some(n)
  {
  }

  /** A day below 10 written with a leading space is a `%d` field of its value. */
  lemma PaddedDayField(n: nat)
    requires 1 <= n < 10
    ensures DayField(" " + Numbers.NatString(n)) == Some(n)
  {
    var s := Numbers.NatString(n);
    assert s == [s[0]];
    assert DigitsValue(s) == DigitsValue(s[..0]) * 10 + (s[0] as int - '0' as int);
  }

  /** Every valid date and time survives being written and read back. */
  lemma ParseFormatted(dt: DateTime)
    requires ValidDateTime(dt)
    ensures ParseDateTime(FormatDate(dt), FormatTime(dt)) == Some(dt)
  {
    var m, d, y := Numbers.NatString(dt.month), Numbers.NatString(dt.day), Pad4(dt.year);
    var h, mi := Numbers.NatString(dt.hour), Pad2(dt.minute);
    NoSeparatorInDigits(m, '/');
    NoSeparatorInDigits(d, '/');
    StrptimeFields(m, d, y, h, mi);
    NatField(dt.month);
    NatField(dt.day);
    NatField(dt.hour);
    assert FormatTime(dt) == h + ":" + mi;
    assert FormatDate(dt) == m + "/" + d + "/" + y;
    LaidText(m, d, y, h, mi);
  }

  /** `strptime` also reads a day below 10 written with a leading space, as `%d` allows. */
  lemma ParseSpacePaddedDay(dt: DateTime)
    requires ValidDateTime(dt) && dt.day < 10
    ensures ParseDateTime(Numbers.NatString(dt.month) + "/ " + Numbers.NatString(dt.day) + "/" + Pad4(dt.year), FormatTime(dt)) == Some(dt)
  {
    var m, d, y := Numbers.NatString(dt.month), " " + Numbers.NatString(dt.day), Pad4(dt.year);
    var h, mi := Numbers.NatString(dt.hour), Pad2(dt.minute);
    NoSeparatorInDigits(m, '/');
    NoSeparatorInDigits(Numbers.NatString(dt.day), '/');
    StrptimeFields(m, d, y, h, mi);
    NatField(dt.month);
    PaddedDayField(dt.day);
    NatField(dt.hour);
    assert FormatTime(dt) == h + ":" + mi;
    LaidText(m, Numbers.NatString(dt.day), y, h, mi);
  }

  /**
   * The date and the time are joined before they are parsed, so the space
   * that pads a day can be the joining one: date `M/` with time
   * `D/YYYY H:MM` is read as that date and time.
   */
  lemma ParseDaySpanningJoin(dt: DateTime)
    requires ValidDateTime(dt) && dt.day < 10
    ensures ParseDateTime(Numbers.NatString(dt.month) + "/",
                          Numbers.NatString(dt.day) + "/" + Pad4(dt.year) + " " + FormatTime(dt)) == Some(dt)
  {
    var m, d, y := Numbers.NatString(dt.month), " " + Numbers.NatString(dt.day), Pad4(dt.year);
    var h, mi := Numbers.NatString(dt.hour), Pad2(dt.minute);
    NoSeparatorInDigits(m, '/');
    NoSeparatorInDigits(Numbers.NatString(dt.day), '/');
    StrptimeFields(m, d, y, h, mi);
    NatField(dt.month);
    PaddedDayField(dt.day);
    NatField(dt.hour);
    assert FormatTime(dt) == h + ":" + mi;
    LaidText(m, Numbers.NatString(dt.day), y, h, mi);
  }

  /** The row `1/,2/2024 10:30,...`: its date and time are read as 2 January 2024, 10:30. */
  lemma ParseSplitRowExample()
    ensures ParseDateTime("1/", "2/2024 10:30") == Some(DateTime(2024, 1, 2, 10, 30))
  {
    LaidText("1", "2", "2024", "10", "30");
    assert "1/" == "1" + "/" && " 2" == " " + "2";
    assert "2/2024 10:30" == "2" + "/" + "2024" + " " + ("10" + ":" + "30");
    StrptimeFields("1", " 2", "2024", "10", "30");
    ExampleFields();
  }

  lemma ExampleFields()
    ensures DigitField("1", 1, 2) == Some(1) && DayField(" 2") == Some(2) && DigitField("2024", 4, 4) == Some(2024)
    ensures DigitField("10", 1, 2) == Some(10) && DigitField("30", 1, 2) == Some(30)
  {
    assert "2024"[..3] == "202" && "202"[..2] == "20" && "20"[..1] == "2";
    assert "10"[..1] == "1";
    assert "30"[..1] == "3";
  }

  lemma NoSeparatorInDigits(s: string, sep: char)
    requires AllDigits(s) && !IsDigit(sep)
    ensures sep !in s
  {
  }

  /**
   * The position of a minute in time; ISO timestamps of valid dates compare
   * as strings exactly as their ordinals compare as numbers.
   */
  function Ordinal(dt: DateTime): int
  {
    (((dt.year * 12 + dt.month - 1) * 31 + dt.day - 1) * 24 + dt.hour) * 60 + dt.minute
  }

  /** The order of ISO timestamps: by year, then month, day, hour and minute. */
  predicate Before(a: DateTime, b: DateTime)
  {
    a.year < b.year
    || (a.year == b.year && (a.month < b.month
    || (a.month == b.month && (a.day < b.day
    || (a.day == b.day && (a.hour < b.hour
    || (a.hour == b.hour && a.minute < b.minute)))))))
  }

  /** A larger leading place outweighs any trailing digit. */
  lemma Place(x: int, y: int, r: int, q: int, n: int)
    requires x < y && 0 <= r < n && 0 <= q < n
    ensures x * n + r < y * n + q
  {
    var d := y - x;
    assert y * n == x * n + d * n;
    AtLeastOnce(d, n);
  }

  lemma {:induction false} AtLeastOnce(d: int, n: int)
    requires d >= 1 && n >= 0
    ensures d * n >= n
    decreases d
  {
    if d > 1 {
      AtLeastOnce(d - 1, n);
      assert d * n == (d - 1) * n + n;
    }
  }

  /**
   * Sorting by ordinal is sorting by ISO timestamp: on valid dates the
   * ordinal is strictly monotone in the timestamp order, hence one-to-one.
   */
  lemma OrdinalOrder(a: DateTime, b: DateTime)
    requires ValidDateTime(a) && ValidDateTime(b)
    ensures Before(a, b) ==> Ordinal(a) < Ordinal(b)
    ensures Ordinal(a) == Ordinal(b) ==> a == b
  {
    var a1, b1 := a.year * 12 + a.month - 1, b.year * 12 + b.month - 1;
    var a2, b2 := a1 * 31 + a.day - 1, b1 * 31 + b.day - 1;
    var a3, b3 := a2 * 24 + a.hour, b2 * 24 + b.hour;
    assert Ordinal(a) == a3 * 60 + a.minute && Ordinal(b) == b3 * 60 + b.minute;
    if a.year != b.year {
      if a.year < b.year { Place(a.year, b.year, a.month - 1, b.month - 1, 12); }
      else { Place(b.year, a.year, b.month - 1, a.month - 1, 12); }
    }
    if a1 != b1 {
      if a1 < b1 { Place(a1, b1, a.day - 1, b.day - 1, 31); } else { Place(b1, a1, b.day - 1, a.day - 1, 31); }
    }
    if a2 != b2 {
      if a2 < b2 { Place(a2, b2, a.hour, b.hour, 24); } else { Place(b2, a2, b.hour, a.hour, 24); }
    }
    if a3 != b3 {
      if a3 < b3 { Place(a3, b3, a.minute, b.minute, 60); } else { Place(b3, a3, b.minute, a.minute, 60); }
    }
  }

  function TimestampOf(r: GasRecord): DateTime { r.timestamp }

  function SortKey(r: GasRecord): int { Ordinal(r.timestamp) }

  /** The header test: some keyword occurs in the lower-cased first line. */
  predicate HasHeader(lines: seq<string>)
  {
    |lines| > 0 && exists k | 0 <= k < |HeaderKeywords| :: Contains(Lower(Strip(lines[0])), HeaderKeywords[k])
  }

  /** The CSV rows read as data. */
  function DataRows(lines: seq<string>): (rows: seq<string>)
    ensures HasHeader(lines) ==> rows == lines[1..]
    ensures !HasHeader(lines) ==> rows == lines
  {
    if HasHeader(lines) then lines[1..] else lines
  }

  /** The record on a CSV row, `None` for a skipped row. */
  function RowRecord(line: string): (r: Option<GasRecord>)
    ensures r.Some? ==> ValidDateTime(r.value.timestamp)
    ensures r.Some? ==> |Split(line, ',')| >= 3
    ensures r.Some? ==> Strptime(Strip(Split(line, ',')[0]) + " " + Strip(Split(line, ',')[1])) == Some(r.value.timestamp)
  {
    var row := Split(line, ',');
    if |row| < 3 then None
    else
      var date, time, value := Strip(row[0]), Strip(row[1]), Strip(row[2]);
      if date == "" || time == "" || value == "" then None
      else
        var ts := ParseDateTime(date, time);
        var v := Numbers.ParseFloat(value);
        if ts.None? || v.None? then None else Some(GasRecord(ts.value, v.value))
  }

  function RowRecords(rows: seq<string>): seq<GasRecord>
  {
    Collect(rows, RowRecord)
  }

  /** The loaded records are exactly the values of the accepted rows. */
  lemma RowRecordsExactly(rows: seq<string>)
    ensures |RowRecords(rows)| <= |rows|
    ensures forall x :: x in RowRecords(rows) <==> exists i | 0 <= i < |rows| :: RowRecord(rows[i]) == Some(x)
  {
    CollectExactly(rows, RowRecord);
  }

  /**
   * `load_csv_file` over the file's lines: the records of the accepted rows
   * in file order, and the number of skipped rows.
   */
  method LoadCsvFile(lines: seq<string>) returns (records: seq<GasRecord>, skipped: nat)
    ensures records == RowRecords(DataRows(lines))
    ensures |records| + skipped == |DataRows(lines)|
  {
    var rows := if HasHeader(lines) then lines[1..] else lines;
    records := [];
    skipped := 0;
    for k := 0 to |rows|
      invariant records == RowRecords(rows[..k])
      invariant |records| + skipped == k
    {
      assert rows[..k + 1] == rows[..k] + [rows[k]];
      CollectSnoc(rows[..k], rows[k], RowRecord);
      var record := RowRecord(rows[k]);
      if record.None? {
        skipped := skipped + 1;
      } else {
        records := records + [record.value];
      }
    }
    assert rows[..|rows|] == rows;
  }

  function TimestampsOf(rs: seq<GasRecord>): set<DateTime>
  {
    Sorting.KeysOf(rs, TimestampOf)
  }

  /** The records `add_gasmeter_data` appends: new timestamps only, first occurrence wins. */
  function NewRecords(existing: seq<GasRecord>, records: seq<GasRecord>): seq<GasRecord>
  {
    Sorting.KeepFirst(records, TimestampOf, TimestampsOf(existing))
  }

  /** The section after adding `records` at time `now` (created empty when missing). */
  function AddedSection(section: Option<GasSection>, records: seq<GasRecord>, now: int): GasSection
  {
    var existing := if section.Some? then section.value.records else [];
    var all := existing + NewRecords(existing, records);
    GasSection(Sorting.SortBy(all, SortKey), now, Some(|all|))
  }

  /**
   * After adding: old records kept, only new timestamps added, every input
   * timestamp present, in time order, with the count alongside.
   */
  lemma AddedSectionProperties(section: Option<GasSection>, records: seq<GasRecord>, now: int)
    ensures var existing := if section.Some? then section.value.records else [];
      var after := AddedSection(section, records, now).records;
      multiset(existing) <= multiset(after)
      && (forall r | r in after && r !in existing :: r in records && r.timestamp !in TimestampsOf(existing))
      && TimestampsOf(after) == TimestampsOf(existing) + TimestampsOf(records)
      && Sorting.SortedBy(after, SortKey)
      && AddedSection(section, records, now).totalRecords == Some(|after|)
  {
    var existing := if section.Some? then section.value.records else [];
    var added := NewRecords(existing, records);
    var all := existing + added;
    var after := AddedSection(section, records, now).records;
    Sorting.KeepFirstProperties(records, TimestampOf, TimestampsOf(existing));
    Sorting.KeepFirstKeys(records, TimestampOf, TimestampsOf(existing));
    Sorting.SortByMembers(all, SortKey);
    forall r | r in after && r !in existing ensures r in records && r.timestamp !in TimestampsOf(existing) {
      assert r in all;
    }
    Sorting.KeysOfConcat(existing, added, TimestampOf);
    assert TimestampsOf(after) == TimestampsOf(all);
  }

  /** Timestamps that were unique stay unique. */
  lemma AddedUnique(section: Option<GasSection>, records: seq<GasRecord>, now: int)
    requires section.Some? ==> Sorting.UniqueKeys(section.value.records, TimestampOf)
    ensures Sorting.UniqueKeys(AddedSection(section, records, now).records, TimestampOf)
  {
    var existing := if section.Some? then section.value.records else [];
    var all := existing + NewRecords(existing, records);
    Sorting.KeepFirstAfter(existing, records, TimestampOf, TimestampsOf(existing));
    Sorting.SortByUnique(all, SortKey, TimestampOf);
  }

  /** Loading the same readings twice adds nothing the second time. */
  lemma AddTwice(section: Option<GasSection>, records: seq<GasRecord>, now: int)
    ensures NewRecords(AddedSection(section, records, now).records, records) == []
  {
    AddedSectionProperties(section, records, now);
    var after := AddedSection(section, records, now).records;
    forall x | x in records ensures TimestampOf(x) in TimestampsOf(after) {
      assert TimestampOf(x) in TimestampsOf(records);
    }
    Sorting.KeepFirstSeen(records, TimestampOf, TimestampsOf(after));
  }

  /** The database of `GasmeterDataLoader`, reduced to its `gasmeter` section. */
  class Loader {
    var gasmeter: Option<GasSection>

    constructor(gasmeter: Option<GasSection>)
      ensures this.gasmeter == gasmeter
    {
      this.gasmeter := gasmeter;
    }

    /** `add_gasmeter_data` at time `now`; returns the numbers of new and duplicate records. */
    method AddGasmeterData(records: seq<GasRecord>, now: int) returns (newCount: nat, duplicateCount: nat)
      modifies this
      ensures gasmeter == Some(AddedSection(old(gasmeter), records, now))
      ensures newCount == |NewRecords(if old(gasmeter).Some? then old(gasmeter).value.records else [], records)|
      ensures newCount + duplicateCount == |records|
    {
      if gasmeter.None? {
        gasmeter := Some(GasSection([], now, None));
      }
      var existing := gasmeter.value.records;
      var kept;
      kept, duplicateCount := Sorting.SeenSetPass(records, TimestampOf, TimestampsOf(existing));
      newCount := |kept|;
      var stored := existing + kept;
      stored := Sorting.SortBy(stored, SortKey);
      gasmeter := Some(GasSection(stored, now, Some(|stored|)));
    }
  }
}
