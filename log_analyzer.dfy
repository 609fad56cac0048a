// The log analyser service: recognising and parsing lines of the form
// `[yyyy-MM-dd HH:mm:ss] [LEVEL] [user] message`, reading a file's lines,
// filtering and counting by level, per-user activity, and extracting the
// distinct IPv4 and e-mail addresses that the two .NET regular expressions
// find in the messages. The regular expressions are written out as
// recognisers with the engine's leftmost-first, backtracking semantics.

module LogAnalyzer {
  import opened Text
  import Sorting

  datatype LogEntry = LogEntry(timestamp: string, level: string, message: string, user: string)

  const Levels: seq<string> := ["INFO", "WARNING", "ERROR", "DEBUG"]

  /** A bracketed field followed by a space and the rest of the line. */
  function Framed(f: string, rest: string): string
  {
    "[" + f + "] " + rest
  }

  /** The line an entry is written as: `[timestamp] [level] [user] message`. */
  function Format(e: LogEntry): string
  {
    Framed(e.timestamp, Framed(e.level, Framed(e.user, e.message)))
  }

  lemma FramedNewline(f: string, rest: string)
    ensures Framed(f, rest) + "\n" == Framed(f, rest + "\n")
  {
  }

  /** A bracketed field: at least one character, none of them `]`. */
  predicate Field(s: string)
  {
    |s| > 0 && forall k | 0 <= k < |s| :: s[k] != ']'
  }

  /** What the four groups of the parsing pattern can capture. */
  predicate Parsable(e: LogEntry)
  {
    Field(e.timestamp) && Field(e.level) && Field(e.user) && |e.message| > 0 && '\n' !in e.message
  }

  /** `line` is the rendering of `e`, possibly followed by one newline (where `$` also matches). */
  predicate Renders(e: LogEntry, line: string)
  {
    line == Format(e) || line == Format(e) + "\n"
  }

  /** `\d{4}-\d{2}-\d{2} \d{2}:\d{2}:\d{2}` */
  predicate TimestampShape(t: string)
  {
    |t| == 19 && AllDigits(t[0..4]) && t[4] == '-' && AllDigits(t[5..7]) && t[7] == '-'
    && AllDigits(t[8..10]) && t[10] == ' ' && AllDigits(t[11..13]) && t[13] == ':'
    && AllDigits(t[14..16]) && t[16] == ':' && AllDigits(t[17..19])
  }

  /** An entry the validating pattern accepts: a timestamp of digits, one of the four levels (case-sensitive). */
  predicate WellFormed(e: LogEntry)
  {
    Parsable(e) && TimestampShape(e.timestamp) && e.level in Levels
  }

  /** The index of the first `c` in `s`, or `|s|` when there is none. */
  function Until(s: string, c: char): (n: nat)
    decreases |s|
    ensures n <= |s| && (forall k | 0 <= k < n :: s[k] != c) && (n < |s| ==> s[n] == c)
  {
    if |s| == 0 || s[0] == c then 0 else Until(s[1..], c) + 1
  }

  /** `\[([^\]]+)\] ` followed by the rest: the field runs up to the first `]`. */
  function Bracket(s: string): (r: Option<(string, string)>)
    ensures r.Some? ==> Field(r.value.0) && s == Framed(r.value.0, r.value.1)
  {
    if |s| == 0 || s[0] != '[' then None
    else
      var n := Until(s[1..], ']');
      if n == 0 || n + 2 >= |s| || s[n + 2] != ' ' then None
      else
        assert s == "[" + s[1..n + 1] + "] " + s[n + 3..];
        Some((s[1..n + 1], s[n + 3..]))
  }

  lemma BracketOf(f: string, rest: string)
    requires Field(f)
    ensures Bracket(Framed(f, rest)) == Some((f, rest))
  {
    var s := Framed(f, rest);
    assert s[1..] == f + "] " + rest;
    assert s[1..][|f|] == ']';
    assert forall k | 0 <= k < |f| :: s[1..][k] == f[k];
    var n := Until(s[1..], ']');
    assert n == |f|;
    assert s[1..n + 1] == f;
    assert s[n + 3..] == rest;
  }

  /** `(.+)$`: a non-empty single line, or one followed by the final newline `$` may precede. */
  function Body(m: string): (r: Option<string>)
    ensures r.Some? ==> |r.value| > 0 && '\n' !in r.value && (m == r.value || m == r.value + "\n")
  {
    if |m| > 0 && '\n' !in m then Some(m)
    else if |m| > 1 && m[|m| - 1] == '\n' && '\n' !in m[..|m| - 1] then
      assert m == m[..|m| - 1] + "\n";
      Some(m[..|m| - 1])
    else None
  }

  /**
   * `ParseLogLine`: the four groups of `^\[([^\]]+)\] \[([^\]]+)\] \[([^\]]+)\] (.+)$`,
   * or nothing when the line does not match.
   */
  function ParseLogLine(line: string): (r: Option<LogEntry>)
    ensures r.Some? ==> Parsable(r.value) && Renders(r.value, line)
  {
    var b1 := Bracket(line);
    if b1.None? then None
    else
      var b2 := Bracket(b1.value.1);
      if b2.None? then None
      else
        var b3 := Bracket(b2.value.1);
        if b3.None? then None
        else
          var m := Body(b3.value.1);
          if m.None? then None
          else
            var e := LogEntry(b1.value.0, b2.value.0, m.value, b3.value.0);
            NewlineFormat(e);
            Some(e)
  }

  /** A final newline goes to the message. */
  lemma NewlineFormat(e: LogEntry)
    ensures Format(e) + "\n" == Framed(e.timestamp, Framed(e.level, Framed(e.user, e.message + "\n")))
  {
    FramedNewline(e.user, e.message);
    FramedNewline(e.level, Framed(e.user, e.message));
    FramedNewline(e.timestamp, Framed(e.level, Framed(e.user, e.message)));
  }

  lemma ParseFramed(e: LogEntry, tail: string)
    requires Parsable(e) && Body(tail) == Some(e.message)
    ensures ParseLogLine(Framed(e.timestamp, Framed(e.level, Framed(e.user, tail)))) == Some(e)
  {
    BracketOf(e.timestamp, Framed(e.level, Framed(e.user, tail)));
    BracketOf(e.level, Framed(e.user, tail));
    BracketOf(e.user, tail);
  }

  /** Parsing inverts rendering: every parsable entry is read back from its line, with or without a final newline. */
  lemma ParseFormat(e: LogEntry)
    requires Parsable(e)
    ensures ParseLogLine(Format(e)) == Some(e)
    ensures ParseLogLine(Format(e) + "\n") == Some(e)
  {
    ParseFramed(e, e.message);
    NewlineFormat(e);
    assert (e.message + "\n")[..|e.message|] == e.message;
    ParseFramed(e, e.message + "\n");
  }

  /**
   * `IsValidLogFormat`: the validating pattern matches. Its timestamp and
   * level alternatives contain no `]`, so its brackets split the line
   * exactly where the parsing pattern's do.
   */
  predicate IsValidLogFormat(line: string)
  {
    match ParseLogLine(line)
    case None => false
    case Some(e) => TimestampShape(e.timestamp) && e.level in Levels
  }

  /** A line is valid exactly when it is the rendering of a well-formed entry (up to one final newline). */
  lemma IsValidLogFormatExactly(line: string)
    ensures IsValidLogFormat(line) <==> exists e :: WellFormed(e) && Renders(e, line)
  {
    if e :| WellFormed(e) && Renders(e, line) {
      ParseFormat(e);
    }
  }

  /** A valid line parses into four non-empty fields whose rendering is the line itself. */
  lemma ValidParses(line: string)
    requires IsValidLogFormat(line) && '\n' !in line
    ensures ParseLogLine(line).Some?
    ensures var e := ParseLogLine(line).value;
      |e.timestamp| > 0 && |e.level| > 0 && |e.user| > 0 && |e.message| > 0 && Format(e) == line
  {
    var e := ParseLogLine(line).value;
    assert line != Format(e) + "\n" by {
      assert (Format(e) + "\n")[|Format(e)|] == '\n';
    }
  }

  /** What one line contributes to the file's entries. */
  function ReadLine(line: string): Option<LogEntry>
  {
    if IsValidLogFormat(line) then ParseLogLine(line) else None
  }

  /** The valid lines, in file order. */
  function ValidLines(lines: seq<string>): seq<string>
  {
    if |lines| == 0 then []
    else
      var last := lines[|lines| - 1];
      ValidLines(lines[..|lines| - 1]) + if IsValidLogFormat(last) then [last] else []
  }

  /** `ReadLogFile` after `File.ReadAllLines`: keep the parse of each valid line. */
  method ReadLogFile(lines: seq<string>) returns (entries: seq<LogEntry>)
    ensures entries == Collect(lines, ReadLine)
  {
    entries := [];
    for k := 0 to |lines|
      invariant entries == Collect(lines[..k], ReadLine)
    {
      var line := lines[k];
      assert lines[..k + 1] == lines[..k] + [line];
      CollectSnoc(lines[..k], line, ReadLine);
      if IsValidLogFormat(line) {
        var entry := ParseLogLine(line);
        if entry.Some? {
          entries := entries + [entry.value];
        }
      }
    }
    assert lines[..|lines|] == lines;
  }

  /** The entries read are, in order, the well-formed entries the valid lines render. */
  lemma {:induction false} ReadLogFileEntries(lines: seq<string>)
    ensures |Collect(lines, ReadLine)| == |ValidLines(lines)|
    ensures forall i | 0 <= i < |ValidLines(lines)| ::
      WellFormed(Collect(lines, ReadLine)[i]) && Renders(Collect(lines, ReadLine)[i], ValidLines(lines)[i])
  {
    if |lines| > 0 {
      var front, last := lines[..|lines| - 1], lines[|lines| - 1];
      ReadLogFileEntries(front);
      assert lines == front + [last];
      CollectSnoc(front, last, ReadLine);
    }
  }

  /** `FilterByLevel`: the entries whose level equals `level` ignoring case, in order. */
  function FilterByLevel(entries: seq<LogEntry>, level: string): seq<LogEntry>
  {
    if |entries| == 0 then []
    else
      var last := entries[|entries| - 1];
      FilterByLevel(entries[..|entries| - 1], level) + if EqualsIgnoreCase(last.level, level) then [last] else []
  }

  /** Each entry is kept as often as it occurs when its level matches, and never otherwise. */
  lemma {:induction false} FilterByLevelExactly(entries: seq<LogEntry>, level: string)
    ensures forall x :: multiset(FilterByLevel(entries, level))[x] ==
                        if EqualsIgnoreCase(x.level, level) then multiset(entries)[x] else 0
  {
    if |entries| > 0 {
      var front, last := entries[..|entries| - 1], entries[|entries| - 1];
      FilterByLevelExactly(front, level);
      assert entries == front + [last];
    }
  }

  /** Filtering distributes over concatenation, so the input order is kept. */
  lemma {:induction false} FilterByLevelConcat(a: seq<LogEntry>, b: seq<LogEntry>, level: string)
    ensures FilterByLevel(a + b, level) == FilterByLevel(a, level) + FilterByLevel(b, level)
  {
    if |b| == 0 {
      assert a + b == a;
    } else {
      var front, last := b[..|b| - 1], b[|b| - 1];
      FilterByLevelConcat(a, front, level);
      assert (a + b)[..|a + b| - 1] == a + front;
    }
  }

  /** `CountErrorEntries`: how many entries have level `ERROR`, ignoring case. */
  function CountErrorEntries(entries: seq<LogEntry>): nat
  {
    if |entries| == 0 then 0
    else CountErrorEntries(entries[1..]) + if EqualsIgnoreCase(entries[0].level, "ERROR") then 1 else 0
  }

  /** Counting the errors is filtering on `ERROR` and taking the length. */
  lemma {:induction false} CountErrorEntriesFilter(entries: seq<LogEntry>)
    ensures CountErrorEntries(entries) == |FilterByLevel(entries, "ERROR")|
  {
    if |entries| > 0 {
      CountErrorEntriesFilter(entries[1..]);
      FilterByLevelConcat([entries[0]], entries[1..], "ERROR");
      assert [entries[0]] + entries[1..] == entries;
      assert [entries[0]][..0] == [];
    }
  }

  /** The number of entries by `user`. */
  function UserCount(entries: seq<LogEntry>, user: string): nat
  {
    if |entries| == 0 then 0
    else UserCount(entries[..|entries| - 1], user) + if entries[|entries| - 1].user == user then 1 else 0
  }

  /** The grouping keys in the order `GroupBy` meets them: each non-empty user at its first entry. */
  function Users(entries: seq<LogEntry>): seq<string>
  {
    if |entries| == 0 then []
    else
      var front, u := Users(entries[..|entries| - 1]), entries[|entries| - 1].user;
      front + if u != "" && u !in front then [u] else []
  }

  /** `GetUserActivitySummary`: for each non-empty user, the number of their entries. */
  function GetUserActivitySummary(entries: seq<LogEntry>): map<string, nat>
  {
    if |entries| == 0 then map[]
    else
      var m, u := GetUserActivitySummary(entries[..|entries| - 1]), entries[|entries| - 1].user;
      if u == "" then m else m[u := (if u in m then m[u] else 0) + 1]
  }

  /** The summary's keys are exactly the non-empty users, compared case-sensitively, each with the number of their entries. */
  lemma {:induction false} GetUserActivitySummaryCounts(entries: seq<LogEntry>)
    ensures forall u :: u in GetUserActivitySummary(entries) <==> u != "" && UserCount(entries, u) > 0
    ensures forall u | u in GetUserActivitySummary(entries) :: GetUserActivitySummary(entries)[u] == UserCount(entries, u)
  {
    if |entries| > 0 {
      GetUserActivitySummaryCounts(entries[..|entries| - 1]);
    }
  }

  /** A user has a positive count exactly when one of the entries is theirs. */
  lemma {:induction false} UserCountPositive(entries: seq<LogEntry>, u: string)
    ensures UserCount(entries, u) > 0 <==> exists i | 0 <= i < |entries| :: entries[i].user == u
  {
    if |entries| > 0 {
      var front := entries[..|entries| - 1];
      UserCountPositive(front, u);
      if i :| 0 <= i < |entries| && entries[i].user == u {
        if i < |front| { assert front[i] == entries[i]; }
      }
      if i :| 0 <= i < |front| && front[i].user == u {
        assert entries[i] == front[i];
      }
    }
  }

  /** The grouping keys are distinct and are the summary's keys. */
  lemma {:induction false} UsersAreKeys(entries: seq<LogEntry>)
    ensures forall i, j | 0 <= i < j < |Users(entries)| :: Users(entries)[i] != Users(entries)[j]
    ensures forall u :: u in Users(entries) <==> u in GetUserActivitySummary(entries)
  {
    if |entries| > 0 {
      UsersAreKeys(entries[..|entries| - 1]);
    }
  }

  /** One more entry with a user adds one to the summed counts. */
  lemma SummaryTotalStep(entries: seq<LogEntry>)
    requires |entries| > 0 && entries[|entries| - 1].user != ""
    ensures var front := entries[..|entries| - 1];
      Sorting.SumOver(Users(entries), GetUserActivitySummary(entries))
      == Sorting.SumOver(Users(front), GetUserActivitySummary(front)) + 1
  {
    var front, u := entries[..|entries| - 1], entries[|entries| - 1].user;
    var m, us := GetUserActivitySummary(front), Users(front);
    UsersAreKeys(front);
    Sorting.SumOverCount(us, m, u);
    if u in m {
      assert Users(entries) == us;
      assert GetUserActivitySummary(entries) == m[u := m[u] + 1];
    } else {
      assert Users(entries) == us + [u];
      assert GetUserActivitySummary(entries) == m[u := 1];
    }
  }

  /** Summed over the grouping keys, the counts add up to the number of entries with a user. */
  lemma {:induction false} GetUserActivitySummaryTotal(entries: seq<LogEntry>)
    ensures Sorting.SumOver(Users(entries), GetUserActivitySummary(entries)) + UserCount(entries, "") == |entries|
  {
    if |entries| == 0 {
      assert Users(entries) == [] && UserCount(entries, "") == 0;
    } else {
      var front, u := entries[..|entries| - 1], entries[|entries| - 1].user;
      GetUserActivitySummaryTotal(front);
      assert UserCount(entries, "") == UserCount(front, "") + if u == "" then 1 else 0;
      if u != "" {
        SummaryTotalStep(entries);
      } else {
        assert Users(entries) == Users(front) && GetUserActivitySummary(entries) == GetUserActivitySummary(front);
      }
    }
  }

  // ---- Word boundaries and the two address patterns ----

  /** `\w` over the modelled alphabet: ASCII letters and digits, `_`, Latin-1 letters and the Hungarian double-acute letters. */
  predicate IsWordChar(c: char)
  {
    'a' <= c <= 'z' || 'A' <= c <= 'Z' || IsDigit(c) || c == '_' || c == '\U{AA}' || c == '\U{B5}' || c == '\U{BA}'
    || ('\U{C0}' <= c <= '\U{FF}' && c != '\U{D7}' && c != '\U{F7}') || c == 'Ő' || c == 'ő' || c == 'Ű' || c == 'ű'
  }

  /** `\b` at position `i`: a word character on exactly one side. */
  predicate Boundary(s: string, i: nat)
  {
    (0 < i <= |s| && IsWordChar(s[i - 1])) != (i < |s| && IsWordChar(s[i]))
  }

  /** The character at `i`, or a space past the end. */
  function At(s: string, i: nat): char
  {
    if i < |s| then s[i] else ' '
  }

  /** A decimal octet: one to three digits worth at most 255. */
  predicate Octet(t: string)
  {
    1 <= |t| <= 3 && AllDigits(t) && DigitsValue(t) <= 255
  }

  /** `n` octets separated by dots. */
  predicate Octets(t: string, n: nat)
  {
    |Split(t, '.')| == n && forall q | q in Split(t, '.') :: Octet(q)
  }

  predicate IsIPv4(t: string)
  {
    Octets(t, 4)
  }

  /**
   * Where `25[0-5]|2[0-4][0-9]|[01]?[0-9][0-9]?` can end when started at `p`,
   * in the order the engine tries them (alternatives left to right, greedy
   * before lazy).
   */
  function OctetEnds(s: string, p: nat): (ends: seq<nat>)
    ensures forall k | 0 <= k < |ends| :: p < ends[k] <= |s| && ends[k] <= p + 3 && AllDigits(s[p..ends[k]])
  {
    var c0, c1, c2 := At(s, p), At(s, p + 1), At(s, p + 2);
    (if c0 == '2' && c1 == '5' && '0' <= c2 <= '5' then [p + 3] else [])
    + (if c0 == '2' && '0' <= c1 <= '4' && IsDigit(c2) then [p + 3] else [])
    + (if (c0 == '0' || c0 == '1') && IsDigit(c1) then (if IsDigit(c2) then [p + 3, p + 2] else [p + 2]) else [])
    + (if IsDigit(c0) then (if IsDigit(c1) then [p + 2, p + 1] else [p + 1]) else [])
  }

  lemma DigitsValueOfThree(t: string)
    requires 1 <= |t| <= 3 && AllDigits(t)
    ensures |t| == 1 ==> DigitsValue(t) == t[0] as int - '0' as int
    ensures |t| == 2 ==> DigitsValue(t) == (t[0] as int - '0' as int) * 10 + (t[1] as int - '0' as int)
    ensures |t| == 3 ==> DigitsValue(t) == (t[0] as int - '0' as int) * 100 + (t[1] as int - '0' as int) * 10 + (t[2] as int - '0' as int)
  {
    if |t| > 1 {
      DigitsValueOfThree(t[..|t| - 1]);
    } else {
      assert t[..0] == "";
    }
  }

  /** Every candidate end delimits an octet worth at most 255. */
  lemma OctetEndsValue(s: string, p: nat)
    ensures forall k | 0 <= k < |OctetEnds(s, p)| :: OctetAt(s, p, OctetEnds(s, p)[k])
  {
    var ends := OctetEnds(s, p);
    forall k | 0 <= k < |ends| ensures Octet(s[p..ends[k]]) {
      var t := s[p..ends[k]];
      DigitsValueOfThree(t);
      if |t| == 3 {
        assert t[0] == At(s, p) && t[1] == At(s, p + 1) && t[2] == At(s, p + 2);
      }
    }
  }

  /** `p < e` and `s[p..e]` is an octet. */
  predicate OctetAt(s: string, p: nat, e: nat)
  {
    p < e <= |s| && Octet(s[p..e])
  }

  /**
   * Try the candidate ends of the octet that started at `p`, in order; the
   * first one from which the rest of the pattern matches wins.
   */
  function TryOctets(s: string, p: nat, ends: seq<nat>, k: nat): (r: Option<nat>)
    requires forall i | 0 <= i < |ends| :: OctetAt(s, p, ends[i])
    decreases k, |ends|
    ensures r.Some? ==> p < r.value <= |s| && Octets(s[p..r.value], k + 1) && Boundary(s, r.value)
  {
    if |ends| == 0 then None
    else
      var here := Continue(s, p, ends[0], k);
      if here.Some? then here else TryOctets(s, p, ends[1..], k)
  }

  /** After the octet `s[p..e]` come `k` more `.`-led octets and then `\b`. */
  function Continue(s: string, p: nat, e: nat, k: nat): (r: Option<nat>)
    requires OctetAt(s, p, e)
    decreases k, 0
    ensures r.Some? ==> p < r.value <= |s| && Octets(s[p..r.value], k + 1) && Boundary(s, r.value)
  {
    if k == 0 then
      if Boundary(s, e) then
        OctetsOne(s[p..e]);
        Some(e)
      else None
    else if e < |s| && s[e] == '.' then
      OctetEndsValue(s, e + 1);
      var rest := TryOctets(s, e + 1, OctetEnds(s, e + 1), k - 1);
      if rest.Some? then
        OctetsLead(s, p, e, rest.value, k);
        rest
      else None
    else None
  }

  lemma OctetsOne(t: string)
    requires Octet(t)
    ensures Octets(t, 1)
  {
    SplitDigits(t, '.');
  }

  /** An octet, a dot and `k` octets are `k + 1` octets. */
  lemma OctetsLead(s: string, p: nat, e: nat, r: nat, k: nat)
    requires OctetAt(s, p, e) && e < r <= |s| && s[e] == '.' && Octets(s[e + 1..r], k)
    ensures Octets(s[p..r], k + 1)
  {
    SplitLead(s[p..e], s[e + 1..r], '.');
    assert s[p..r] == s[p..e] + ['.'] + s[e + 1..r];
  }

  /** The IPv4 pattern tried at `i`: `\b`, then four octets separated by dots, then `\b`. */
  function MatchIP(s: string, i: nat): (r: Option<nat>)
    ensures r.Some? ==> i < r.value <= |s| && IsIPv4(s[i..r.value])
  {
    if i < |s| && Boundary(s, i) then
      OctetEndsValue(s, i);
      TryOctets(s, i, OctetEnds(s, i), 3)
    else None
  }

  predicate AsciiLetter(c: char) { 'a' <= c <= 'z' || 'A' <= c <= 'Z' }

  /** `[A-Za-z0-9._%+-]` */
  predicate LocalChar(c: char) { AsciiLetter(c) || IsDigit(c) || c == '.' || c == '_' || c == '%' || c == '+' || c == '-' }

  /** `[A-Za-z0-9.-]` */
  predicate DomainChar(c: char) { AsciiLetter(c) || IsDigit(c) || c == '.' || c == '-' }

  /**
   * The greedy domain part `[A-Za-z0-9.-]+` gives back characters from the
   * right until it is followed by `.`, a run of at least two letters, and
   * `\b`. Backing the letter run off cannot help: a shorter run ends between
   * two letters, where there is no word boundary. The result is the dot's position.
   */
  function TryDomain(s: string, lo: nat, d: nat): (r: Option<nat>)
    requires lo <= d <= |s| && forall k | lo <= k < d :: DomainChar(s[k])
    decreases d
    ensures r.Some? ==> lo < r.value <= d && TopLevelAt(s, r.value)
  {
    if d <= lo then None
    else if TopLevelAt(s, d) then Some(d)
    else TryDomain(s, lo, d - 1)
  }

  /** A dot at `d`, then at least two letters ending at a word boundary. */
  predicate TopLevelAt(s: string, d: nat)
  {
    d < |s| && s[d] == '.' && RunEnd(s, d + 1, AsciiLetter) >= d + 3 && Boundary(s, RunEnd(s, d + 1, AsciiLetter))
  }

  /** `local@domain.tld`: local and domain parts over their classes, the top level at least two letters. */
  predicate EmailShape(m: string)
  {
    exists a, d | 0 < a && a + 1 < d && d + 2 < |m| ::
      m[a] == '@' && m[d] == '.'
      && (forall k | 0 <= k < a :: LocalChar(m[k]))
      && (forall k | a < k < d :: DomainChar(m[k]))
      && (forall k | d < k < |m| :: AsciiLetter(m[k]))
  }

  /**
   * The e-mail pattern tried at `i`. The local part `[A-Za-z0-9._%+-]+`
   * cannot contain `@`, so it runs exactly to the first character outside
   * its class, which must be `@`.
   */
  function MatchEmail(s: string, i: nat): (r: Option<nat>)
    ensures r.Some? ==> i < r.value <= |s| && EmailShape(s[i..r.value])
  {
    EmailAt(s, i)
  }

  function EmailAt(s: string, i: nat): (r: Option<nat>)
    ensures r.Some? ==> i < r.value <= |s| && EmailShape(s[i..r.value])
  {
    if !(i < |s| && Boundary(s, i)) then None
    else
      var a := RunEnd(s, i, LocalChar);
      if a == i || a >= |s| || s[a] != '@' then None
      else
        var z := RunEnd(s, a + 1, DomainChar);
        var d := TryDomain(s, a + 1, z);
        if d.None? then None
        else
          var f := RunEnd(s, d.value + 1, AsciiLetter);
          EmailShapeOf(s, i, a, d.value, f);
          Some(f)
  }

  lemma EmailShapeOf(s: string, i: nat, a: nat, d: nat, f: nat)
    requires i < a && a + 1 < d && d + 2 < f <= |s| && s[a] == '@' && s[d] == '.'
    requires forall k | i <= k < a :: LocalChar(s[k])
    requires forall k | a < k < d :: DomainChar(s[k])
    requires forall k | d < k < f :: AsciiLetter(s[k])
    ensures EmailShape(s[i..f])
  {
    var m := s[i..f];
    assert m[a - i] == '@' && m[d - i] == '.';
    assert forall k | 0 <= k < a - i :: LocalChar(m[k]);
    assert forall k | a - i < k < d - i :: DomainChar(m[k]);
    assert forall k | d - i < k < |m| :: AsciiLetter(m[k]);
  }

  /**
   * `Regex.Matches`: try the pattern at each position from `i` on; after a
   * match, go on from its end.
   */
  function Scan(s: string, i: nat, matchAt: (string, nat) -> Option<nat>): seq<string>
    decreases |s| - i
  {
    if i >= |s| then []
    else
      var m := matchAt(s, i);
      if m.Some? && i < m.value <= |s| then [s[i..m.value]] + Scan(s, m.value, matchAt)
      else Scan(s, i + 1, matchAt)
  }

  /** `SelectMany`: the results for each element, concatenated in order. */
  function SelectMany<A, B>(xs: seq<A>, f: A -> seq<B>): seq<B>
  {
    if |xs| == 0 then [] else f(xs[0]) + SelectMany(xs[1..], f)
  }

  lemma {:induction false} SelectManyMembers<A, B>(xs: seq<A>, f: A -> seq<B>)
    ensures forall y :: y in SelectMany(xs, f) <==> exists k | 0 <= k < |xs| :: y in f(xs[k])
  {
    if |xs| > 0 {
      SelectManyMembers(xs[1..], f);
      forall y | exists k | 0 <= k < |xs| :: y in f(xs[k]) ensures y in SelectMany(xs, f) {
        var k :| 0 <= k < |xs| && y in f(xs[k]);
        if k > 0 { assert xs[1..][k - 1] == xs[k]; }
      }
    }
  }

  function IPsIn(e: LogEntry): seq<string> { Scan(e.message, 0, MatchIP) }

  function EmailsIn(e: LogEntry): seq<string> { Scan(e.message, 0, MatchEmail) }

  /** `ExtractIPAddresses`: every match in every message, then `Distinct`. */
  function ExtractIPAddresses(entries: seq<LogEntry>): seq<string>
  {
    Sorting.Distinct(SelectMany(entries, IPsIn))
  }

  /** `ExtractEmailAddresses`: every match in every message, then `Distinct`. */
  function ExtractEmailAddresses(entries: seq<LogEntry>): seq<string>
  {
    Sorting.Distinct(SelectMany(entries, EmailsIn))
  }

  /** `x` occurs in `s`. */
  predicate Occurs(x: string, s: string)
  {
    exists j, k | 0 <= j <= k <= |s| :: s[j..k] == x
  }

  /**
   * Whatever `Scan` returns has every property `ok` that each single match
   * of the pattern has.
   */
  lemma ScanFound(s: string, i: nat, x: string, matchAt: (string, nat) -> Option<nat>, ok: string -> bool)
    requires x in Scan(s, i, matchAt)
    requires forall j: nat, e: nat | j <= e <= |s| && matchAt(s, j) == Some(e) :: ok(s[j..e])
    ensures ok(x)
  {
    var j, e := ScanWitness(s, i, x, matchAt);
  }

  lemma ScanOccurs(s: string, i: nat, x: string, matchAt: (string, nat) -> Option<nat>)
    requires x in Scan(s, i, matchAt)
    ensures Occurs(x, s)
  {
    var j, e := ScanWitness(s, i, x, matchAt);
    OccursAt(x, s, j);
  }

  /** Where a match found by `Scan` starts. */
  lemma {:induction false} ScanWitness(s: string, i: nat, x: string, matchAt: (string, nat) -> Option<nat>)
    returns (j: nat, e: nat)
    requires x in Scan(s, i, matchAt)
    ensures i <= j && e == j + |x| <= |s| && matchAt(s, j) == Some(e) && s[j..e] == x
    decreases |s| - i
  {
    var m := matchAt(s, i);
    if m.Some? && i < m.value <= |s| {
      if x == s[i..m.value] {
        j, e := i, m.value;
      } else {
        j, e := ScanWitness(s, m.value, x, matchAt);
      }
    } else {
      j, e := ScanWitness(s, i + 1, x, matchAt);
    }
  }

  lemma OccursAt(x: string, s: string, j: nat)
    requires j + |x| <= |s| && s[j..j + |x|] == x
    ensures Occurs(x, s)
  {
  }

  lemma IPFound(s: string, x: string)
    requires x in Scan(s, 0, MatchIP)
    ensures IsIPv4(x) && Occurs(x, s)
  {
    forall j: nat, e: nat | j <= e <= |s| && MatchIP(s, j) == Some(e)
      ensures IsIPv4(s[j..e])
    {
    }
    ScanFound(s, 0, x, MatchIP, IsIPv4);
    ScanOccurs(s, 0, x, MatchIP);
  }

  lemma EmailFound(s: string, x: string)
    requires x in Scan(s, 0, MatchEmail)
    ensures EmailShape(x) && Occurs(x, s)
  {
    forall j: nat, e: nat | j <= e <= |s| && MatchEmail(s, j) == Some(e)
      ensures EmailShape(s[j..e])
    {
    }
    ScanFound(s, 0, x, MatchEmail, EmailShape);
    ScanOccurs(s, 0, x, MatchEmail);
  }

  /** Every IP found in a message occurs there and has four octets of at most 255. */
  lemma IPsInShape(e: LogEntry)
    ensures forall x | x in IPsIn(e) :: IsIPv4(x) && Occurs(x, e.message)
  {
    forall x | x in IPsIn(e) ensures IsIPv4(x) && Occurs(x, e.message) {
      IPFound(e.message, x);
    }
  }

  /** Every address found in a message occurs there and has the `local@domain.tld` shape. */
  lemma EmailsInShape(e: LogEntry)
    ensures forall x | x in EmailsIn(e) :: EmailShape(x) && Occurs(x, e.message)
  {
    forall x | x in EmailsIn(e) ensures EmailShape(x) && Occurs(x, e.message) {
      EmailFound(e.message, x);
    }
  }

  /**
   * The extracted IPs are distinct, each occurs in some message and has four
   * octets of at most 255, and every IP the pattern finds is among them.
   */
  lemma ExtractIPAddressesProperties(entries: seq<LogEntry>)
    ensures forall i, j | 0 <= i < j < |ExtractIPAddresses(entries)| ::
              ExtractIPAddresses(entries)[i] != ExtractIPAddresses(entries)[j]
    ensures forall x | x in ExtractIPAddresses(entries) ::
              IsIPv4(x) && exists k | 0 <= k < |entries| :: Occurs(x, entries[k].message)
    ensures forall k, x | 0 <= k < |entries| && x in IPsIn(entries[k]) :: x in ExtractIPAddresses(entries)
  {
    Sorting.DistinctProperties(SelectMany(entries, IPsIn));
    SelectManyMembers(entries, IPsIn);
    forall x | x in ExtractIPAddresses(entries)
      ensures IsIPv4(x) && exists k | 0 <= k < |entries| :: Occurs(x, entries[k].message)
    {
      var k :| 0 <= k < |entries| && x in IPsIn(entries[k]);
      IPsInShape(entries[k]);
    }
  }

  /**
   * The extracted e-mail addresses are distinct, each occurs in some message
   * and has the `local@domain.tld` shape, and every address the pattern finds
   * is among them.
   */
  lemma ExtractEmailAddressesProperties(entries: seq<LogEntry>)
    ensures forall i, j | 0 <= i < j < |ExtractEmailAddresses(entries)| ::
              ExtractEmailAddresses(entries)[i] != ExtractEmailAddresses(entries)[j]
    ensures forall x | x in ExtractEmailAddresses(entries) ::
              EmailShape(x) && exists k | 0 <= k < |entries| :: Occurs(x, entries[k].message)
    ensures forall k, x | 0 <= k < |entries| && x in EmailsIn(entries[k]) :: x in ExtractEmailAddresses(entries)
  {
    Sorting.DistinctProperties(SelectMany(entries, EmailsIn));
    SelectManyMembers(entries, EmailsIn);
    forall x | x in ExtractEmailAddresses(entries)
      ensures EmailShape(x) && exists k | 0 <= k < |entries| :: Occurs(x, entries[k].message)
    {
      var k :| 0 <= k < |entries| && x in EmailsIn(entries[k]);
      EmailsInShape(entries[k]);
    }
  }
}
