// Extracting the amount, issue date, provider and consumer address from the
// text of a Hungarian utility bill: a keyword search first, a pattern search
// as the fallback, normalised dates and amounts, and the record with its
// uncertainty flag. What the regular expressions match is given as
// functions; the line tests for providers and addresses are modelled.

module BillExtractor {
  import opened Text
  import opened Numbers

  datatype FieldType = Amount | Date | Provider | Address

  /** The fields in the order they are extracted. */
  const Fields: seq<FieldType> := [Amount, Date, Provider, Address]

  /** The record key each field is stored under. */
  function ResultKey(f: FieldType): string
  {
    match f
    case Amount => "összeg"
    case Date => "számla_kelte"
    case Provider => "szolgáltató"
    case Address => "fogyasztó_címe"
  }

  function Keywords(f: FieldType): seq<string>
  {
    match f
    case Amount => ["fizetendő", "összeg", "végösszeg", "teljes összeg", "bruttó összeg"]
    case Date => ["számla kelte", "kiállítás dátuma", "számlakelte", "dátum"]
    case Provider => ["szolgáltató neve", "szolgáltató", "kiállító", "cégnév"]
    case Address => ["felhasználási hely címe", "fogyasztási hely", "címzett címe", "cím"]
  }

  const NotFound: string := "NOT_FOUND"
  const KeywordConfidence: real := 0.9
  const PatternConfidence: real := 0.6
  const CertainConfidence: real := 0.8

  // ---------------------------------------------------------------- dates

  /** Python's `str.zfill`: left-pad with zeros to `width`, after a leading sign. */
  function ZFill(s: string, width: nat): (r: string)
    ensures |s| >= width ==> r == s
    ensures |r| >= width && |r| >= |s|
  {
    if |s| >= width then s
    else
      var zeros := seq(width - |s|, _ => '0');
      if |s| > 0 && (s[0] == '+' || s[0] == '-') then [s[0]] + zeros + s[1..] else zeros + s
  }

  /** Padding adds only zeros. */
  lemma ZFillAvoids(s: string, width: nat, c: char)
    requires c != '0' && c !in s
    ensures c !in ZFill(s, width)
  {
    if |s| < width {
      var zeros := seq(width - |s|, _ => '0');
      assert c !in zeros;
      if |s| > 0 && (s[0] == '+' || s[0] == '-') {
        assert c !in s[1..];
      }
    }
  }

  /** Padding keeps non-blank ends non-blank. */
  lemma ZFillEnds(s: string, width: nat)
    requires width > 0
    ensures var r := ZFill(s, width);
            && |r| > 0
            && ((|s| == 0 || !IsSpace(s[0])) ==> !IsSpace(r[0]))
            && ((|s| == 0 || !IsSpace(s[|s| - 1])) ==> !IsSpace(r[|r| - 1]))
  {
  }

  /** `normalize_date`: strip, unify the separators to `.`, and pad a three-part date to 4, 2 and 2 digits. */
  function NormalizeDate(dateStr: string): string
  {
    var d := MapChar(MapChar(Strip(dateStr), '-', '.'), '/', '.');
    var parts := Split(d, '.');
    if |parts| == 3 then ZFill(parts[0], 4) + "." + ZFill(parts[1], 2) + "." + ZFill(parts[2], 2)
    else d
  }

  /** A text whose ends are not whitespace is its own strip. */
  lemma StripUntouched(x: string)
    requires |x| > 0 ==> !IsSpace(x[0]) && !IsSpace(x[|x| - 1])
    ensures Strip(x) == x
  {
    assert TrimStart(x) == x;
  }

  lemma MapCharAbsent(x: string, a: char, b: char)
    requires a !in x
    ensures MapChar(x, a, b) == x
  {
  }

  /** A text of three fields is the fields around two separators. */
  lemma SplitThree(d: string, sep: char)
    requires |Split(d, sep)| == 3
    ensures var p := Split(d, sep);
            && d == p[0] + [sep] + (p[1] + [sep] + p[2])
            && sep !in p[0] && sep !in p[1] && sep !in p[2]
  {
    var p := Split(d, sep);
    SplitParts(d, sep);
    assert p[0] in p && p[1] in p && p[2] in p;
    var tail := p[1..];
    assert tail[0] == p[1] && tail[1..] == [p[2]];
    assert Join(tail, [sep]) == p[1] + [sep] + p[2];
    assert Join(p, [sep]) == p[0] + [sep] + Join(tail, [sep]);
  }

  /** The separator-unified text: non-blank ends and no `-` or `/`. */
  lemma UnifiedText(dateStr: string)
    ensures var d := MapChar(MapChar(Strip(dateStr), '-', '.'), '/', '.');
            && '-' !in d && '/' !in d && (|d| > 0 ==> !IsSpace(d[0]) && !IsSpace(d[|d| - 1]))
  {
  }

  /** The padded date: three dot-free parts around two dots, with non-blank ends and no `-` or `/`. */
  lemma PaddedDate(d: string)
    requires '-' !in d && '/' !in d && (|d| > 0 ==> !IsSpace(d[0]) && !IsSpace(d[|d| - 1]))
    requires |Split(d, '.')| == 3
    ensures var p := Split(d, '.');
            var a, b, c := ZFill(p[0], 4), ZFill(p[1], 2), ZFill(p[2], 2);
            var r := a + "." + b + "." + c;
            && '.' !in a && '.' !in b && '.' !in c && '-' !in r && '/' !in r
            && !IsSpace(r[0]) && !IsSpace(r[|r| - 1])
  {
    var p := Split(d, '.');
    SplitThree(d, '.');
    forall x | x in ['.', '-', '/'] ensures x !in ZFill(p[0], 4) && x !in ZFill(p[1], 2) && x !in ZFill(p[2], 2) {
      ZFillAvoids(p[0], 4, x);
      ZFillAvoids(p[1], 2, x);
      ZFillAvoids(p[2], 2, x);
    }
    ZFillEnds(p[0], 4);
    ZFillEnds(p[2], 2);
    if |p[0]| > 0 {
      assert d[0] == p[0][0];
    }
    if |p[2]| > 0 {
      assert d[|d| - 1] == p[2][|p[2]| - 1];
    }
  }

  /** Normalising a normalised date changes nothing: padding never shortens a part. */
  lemma NormalizeDateIdempotent(dateStr: string)
    ensures NormalizeDate(NormalizeDate(dateStr)) == NormalizeDate(dateStr)
  {
    var d := MapChar(MapChar(Strip(dateStr), '-', '.'), '/', '.');
    UnifiedText(dateStr);
    var parts := Split(d, '.');
    var r := NormalizeDate(dateStr);
    if |parts| == 3 {
      PaddedDate(d);
      var a, b, c := ZFill(parts[0], 4), ZFill(parts[1], 2), ZFill(parts[2], 2);
      assert r == a + "." + b + "." + c;
      StripUntouched(r);
      MapCharAbsent(r, '-', '.');
      MapCharAbsent(r, '/', '.');
      SplitThreeFields(a, b, c, '.');
    } else {
      StripUntouched(d);
      MapCharAbsent(d, '-', '.');
      MapCharAbsent(d, '/', '.');
    }
  }

  // -------------------------------------------------------------- amounts

  /**
   * The amount text of a keyword match in plain decimal form: spaces go; with
   * both `.` and `,`, dots are thousands separators and the comma the decimal
   * point; a dot before a last group of three is a thousands separator; a
   * lone comma is the decimal point.
   */
  function NormalizeAmount(amount: string): (r: string)
    ensures ' ' !in r && ',' !in r
  {
    var a := ReplaceAll(amount, " ", "");
    ReplaceAllRemoves(amount, ' ');
    var groups := Split(a, '.');
    if '.' in a && ',' in a then
      var b := ReplaceAll(a, ".", "");
      ReplaceAllRemoves(a, '.');
      ReplaceAllKeeps(a, '.', ' ');
      MapChar(b, ',', '.')
    else if '.' in a && |groups[|groups| - 1]| == 3 then
      ReplaceAllKeeps(a, '.', ' ');
      ReplaceAll(a, ".", "")
    else if ',' in a then MapChar(a, ',', '.')
    else a
  }

  /** Removing one character keeps every other character absent. */
  lemma {:induction false} ReplaceAllKeeps(s: string, c: char, d: char)
    requires d !in s
    ensures d !in ReplaceAll(s, [c], "") && (c != d ==> forall x | x in ReplaceAll(s, [c], "") :: x in s)
    decreases |s|
  {
    if |s| > 0 {
      ReplaceAllKeeps(s[1..], c, d);
    }
  }

  /** The digits of a text, in order. */
  function DigitsOf(s: string): string
  {
    if |s| == 0 then "" else (if IsDigit(s[0]) then [s[0]] else "") + DigitsOf(s[1..])
  }

  lemma {:induction false} RemoveKeepsDigits(s: string, c: char)
    requires !IsDigit(c)
    ensures DigitsOf(ReplaceAll(s, [c], "")) == DigitsOf(s)
    decreases |s|
  {
    if |s| > 0 {
      RemoveKeepsDigits(s[1..], c);
      if [c] <= s {
        assert s[0] == c;
        assert ReplaceAll(s, [c], "") == ReplaceAll(s[1..], [c], "");
        assert DigitsOf(s) == DigitsOf(s[1..]);
      } else {
        assert ReplaceAll(s, [c], "") == [s[0]] + ReplaceAll(s[1..], [c], "");
        assert ([s[0]] + ReplaceAll(s[1..], [c], ""))[1..] == ReplaceAll(s[1..], [c], "");
      }
    }
  }

  lemma {:induction false} MapKeepsDigits(s: string, a: char, b: char)
    requires !IsDigit(a) && !IsDigit(b)
    ensures DigitsOf(MapChar(s, a, b)) == DigitsOf(s)
    decreases |s|
  {
    if |s| > 0 {
      MapKeepsDigits(s[1..], a, b);
      assert MapChar(s, a, b)[1..] == MapChar(s[1..], a, b);
    }
  }

  /** Normalising an amount never changes its digits or their order. */
  lemma NormalizeAmountKeepsDigits(amount: string)
    ensures DigitsOf(NormalizeAmount(amount)) == DigitsOf(amount)
  {
    var a := ReplaceAll(amount, " ", "");
    RemoveKeepsDigits(amount, ' ');
    RemoveKeepsDigits(a, '.');
    MapKeepsDigits(ReplaceAll(a, ".", ""), ',', '.');
    MapKeepsDigits(a, ',', '.');
  }

  /** Removing a character that does not occur changes nothing. */
  lemma {:induction false} RemoveAbsent(s: string, c: char)
    requires c !in s
    ensures ReplaceAll(s, [c], "") == s
    decreases |s|
  {
    if |s| > 0 {
      RemoveAbsent(s[1..], c);
      assert [s[0]] + s[1..] == s;
    }
  }

  /** A prefix without the removed character passes through unchanged. */
  lemma {:induction false} RemoveAfter(x: string, rest: string, c: char)
    requires c !in x
    ensures ReplaceAll(x + rest, [c], "") == x + ReplaceAll(rest, [c], "")
    decreases |x|
  {
    if |x| > 0 {
      assert (x + rest)[1..] == x[1..] + rest;
      RemoveAfter(x[1..], rest, c);
      assert [x[0]] + (x[1..] + ReplaceAll(rest, [c], "")) == x + ReplaceAll(rest, [c], "");
    } else {
      assert x + rest == rest;
    }
  }

  lemma DigitsHaveNoMarks(w: string)
    requires AllDigits(w)
    ensures ' ' !in w && '.' !in w && ',' !in w
  {
  }

  /** Groups separated by a dot before a last group of three digits: the dot is a thousands separator. */
  lemma NormalizeThousandsDot(lead: string, group: string)
    requires AllDigits(lead) && AllDigits(group) && |group| == 3
    ensures NormalizeAmount(lead + "." + group) == lead + group
  {
    var x := lead + "." + group;
    DigitsHaveNoMarks(lead);
    DigitsHaveNoMarks(group);
    assert ReplaceAll(x, " ", "") == x && ',' !in x && '.' in x by {
      RemoveAbsent(x, ' ');
    }
    assert Split(x, '.') == [lead, group] by {
      SplitLead(lead, group, '.');
      SplitDigits(group, '.');
    }
    assert ReplaceAll(x, ".", "") == lead + group by {
      assert x == lead + ("." + group);
      RemoveAfter(lead, "." + group, '.');
      assert ("." + group)[1..] == group;
      assert ReplaceAll("." + group, ".", "") == ReplaceAll(group, ".", "");
      RemoveAbsent(group, '.');
    }
  }

  /** Digits around a dot before a last part of other length: the dot is the decimal point. */
  lemma NormalizeDecimalDot(whole: string, frac: string)
    requires AllDigits(whole) && AllDigits(frac) && |frac| != 3
    ensures NormalizeAmount(whole + "." + frac) == whole + "." + frac
  {
    var x := whole + "." + frac;
    DigitsHaveNoMarks(whole);
    DigitsHaveNoMarks(frac);
    RemoveAbsent(x, ' ');
    SplitLead(whole, frac, '.');
    SplitDigits(frac, '.');
  }

  /** Digits around a comma: the comma is the decimal point. */
  lemma NormalizeDecimalComma(whole: string, frac: string)
    requires AllDigits(whole) && AllDigits(frac)
    ensures NormalizeAmount(whole + "," + frac) == whole + "." + frac
  {
    var x := whole + "," + frac;
    DigitsHaveNoMarks(whole);
    DigitsHaveNoMarks(frac);
    RemoveAbsent(x, ' ');
    assert '.' !in x;
    assert MapChar(x, ',', '.') == whole + "." + frac;
  }

  /** With both marks, the dot separates thousands and the comma is the decimal point. */
  lemma NormalizeBothMarks(lead: string, group: string, frac: string)
    requires AllDigits(lead) && AllDigits(group) && AllDigits(frac)
    ensures NormalizeAmount(lead + "." + group + "," + frac) == lead + group + "." + frac
  {
    var x := lead + "." + group + "," + frac;
    var rest := group + "," + frac;
    DigitsHaveNoMarks(lead);
    DigitsHaveNoMarks(group);
    DigitsHaveNoMarks(frac);
    assert ReplaceAll(x, " ", "") == x && ',' in x && '.' in x by {
      RemoveAbsent(x, ' ');
    }
    assert ReplaceAll(x, ".", "") == lead + rest by {
      assert x == lead + ("." + rest);
      RemoveAfter(lead, "." + rest, '.');
      assert ("." + rest)[1..] == rest;
      assert ReplaceAll("." + rest, ".", "") == ReplaceAll(rest, ".", "");
      RemoveAbsent(rest, '.');
    }
    assert MapChar(lead + rest, ',', '.') == lead + group + "." + frac;
  }

  // ------------------------------------------------------ keyword search

  /** The first of `lines`, stripped, that satisfies `p`. */
  function FirstStrippedWhere(lines: seq<string>, p: string -> bool): (r: Option<string>)
    ensures r.Some? ==> p(r.value) && r.value in StripEach(lines)
    ensures r.None? ==> forall x | x in StripEach(lines) :: !p(x)
  {
    if |lines| == 0 then None
    else if p(Strip(lines[0])) then Some(Strip(lines[0]))
    else FirstStrippedWhere(lines[1..], p)
  }

  /** A provider line: longer than five characters and naming a company form. */
  predicate IsProviderLine(line: string)
  {
    |line| > 5 && (Contains(line, "Kft") || Contains(line, "Zrt") || Contains(line, "Bt") || Contains(line, "Nonprofit"))
  }

  predicate IsCapital(c: char)
  {
    'A' <= c <= 'Z' || c in "ÁÉÍÓÖŐÚÜŰ"
  }

  /** An address line starts with a four-digit postcode, whitespace and a capital letter. */
  predicate IsAddressLine(line: string)
  {
    |line| >= 5 && AllDigits(line[..4]) && IsSpace(line[4])
    && var e := RunEnd(line, 4, IsSpace); e < |line| && IsCapital(line[e])
  }

  /**
   * What the text after a keyword yields for a field: the amount or date the
   * field's pattern matches near it, normalised, or the first provider line
   * among the next three, or the first address line among the next five.
   */
  function ValueAfter(f: FieldType, after: string, amountMatch: string -> Option<string>,
                      dateMatch: string -> Option<string>): Option<string>
  {
    match f
    case Amount => (match amountMatch(Take(after, 100)) case Some(g) => Some(NormalizeAmount(g)) case None => None)
    case Date => (match dateMatch(Take(after, 50)) case Some(g) => Some(NormalizeDate(g)) case None => None)
    case Provider => FirstStrippedWhere(Take(Split(Take(after, 200), '\n'), 3), IsProviderLine)
    case Address => FirstStrippedWhere(Take(Split(Take(after, 300), '\n'), 5), IsAddressLine)
  }

  /** Python's `xs[:n]`, on text and on lists. */
  function Take<T>(xs: seq<T>, n: nat): (r: seq<T>)
    ensures |r| <= n && r <= xs
    ensures |r| == if |xs| <= n then |xs| else n
  {
    if |xs| <= n then xs else xs[..n]
  }

  /** What keyword `kw` yields: the value after its first case-insensitive occurrence, if any. */
  function KeywordHit(text: string, kw: string, f: FieldType, amountMatch: string -> Option<string>,
                      dateMatch: string -> Option<string>): Option<string>
  {
    match Find(Lower(text), Lower(kw))
    case None => None
    case Some(pos) => ValueAfter(f, text[pos + |kw|..], amountMatch, dateMatch)
  }

  /** What each of `kws` yields, in order. */
  function KeywordHits(text: string, kws: seq<string>, f: FieldType, amountMatch: string -> Option<string>,
                       dateMatch: string -> Option<string>): (hits: seq<Option<string>>)
    ensures |hits| == |kws|
  {
    if |kws| == 0 then [] else [KeywordHit(text, kws[0], f, amountMatch, dateMatch)] + KeywordHits(text, kws[1..], f, amountMatch, dateMatch)
  }

  lemma {:induction false} KeywordHitsAt(text: string, kws: seq<string>, f: FieldType, amountMatch: string -> Option<string>,
                                         dateMatch: string -> Option<string>, i: nat)
    requires i < |kws|
    ensures KeywordHits(text, kws, f, amountMatch, dateMatch)[i] == KeywordHit(text, kws[i], f, amountMatch, dateMatch)
    decreases i
  {
    if i > 0 {
      KeywordHitsAt(text, kws[1..], f, amountMatch, dateMatch, i - 1);
    }
  }

  /** The first value present in `xs`. */
  function FirstSome<T>(xs: seq<Option<T>>): Option<T>
  {
    if |xs| == 0 then None else if xs[0].Some? then xs[0] else FirstSome(xs[1..])
  }

  /** The first present value is the value at the first present position; there is none exactly when all are absent. */
  lemma {:induction false} FirstSomeMeaning<T>(xs: seq<Option<T>>)
    ensures FirstSome(xs).None? <==> forall i | 0 <= i < |xs| :: xs[i].None?
    ensures FirstSome(xs).Some? ==>
              exists i | 0 <= i < |xs| :: xs[i] == FirstSome(xs) && forall j | 0 <= j < i :: xs[j].None?
  {
    if |xs| > 0 {
      var rest := xs[1..];
      FirstSomeMeaning(rest);
      assert forall i | 0 <= i < |rest| :: rest[i] == xs[i + 1];
      if xs[0].None? && FirstSome(rest).Some? {
        var i :| 0 <= i < |rest| && rest[i] == FirstSome(rest) && forall j | 0 <= j < i :: rest[j].None?;
        assert xs[i + 1] == FirstSome(xs);
        assert forall j | 0 <= j < i + 1 :: xs[j].None? by {
          forall j | 0 <= j < i + 1 ensures xs[j].None? {
            if j > 0 { assert xs[j] == rest[j - 1]; }
          }
        }
      }
    }
  }

  /** An extraction: the value found, if any, and how sure it is. */
  datatype Extraction = Extraction(value: Option<string>, confidence: real)

  /** `find_field_by_keywords` as a value: a hit at keyword confidence, else nothing at zero. */
  function KeywordExtraction(text: string, f: FieldType, amountMatch: string -> Option<string>,
                             dateMatch: string -> Option<string>): Extraction
  {
    var hit := FirstSome(KeywordHits(text, Keywords(f), f, amountMatch, dateMatch));
    Extraction(hit, if hit.Some? then KeywordConfidence else 0.0)
  }

  /** `find_field_by_keywords`: the keywords in order, the first that yields a value wins. */
  method FindFieldByKeywords(text: string, f: FieldType, amountMatch: string -> Option<string>,
                             dateMatch: string -> Option<string>) returns (value: Option<string>, confidence: real)
    ensures value == FirstSome(KeywordHits(text, Keywords(f), f, amountMatch, dateMatch))
    ensures value.Some? ==> confidence == KeywordConfidence
    ensures value.None? ==> confidence == 0.0
  {
    var keywords := Keywords(f);
    ghost var hits := KeywordHits(text, keywords, f, amountMatch, dateMatch);
    for i := 0 to |keywords|
      invariant FirstSome(hits[i..]) == FirstSome(hits)
    {
      assert hits[i..][1..] == hits[i + 1..];
      KeywordHitsAt(text, keywords, f, amountMatch, dateMatch, i);
      var v := KeywordHit(text, keywords[i], f, amountMatch, dateMatch);
      if v.Some? {
        return v, KeywordConfidence;
      }
    }
    assert hits[|keywords|..] == [];
    return None, 0.0;
  }

  // ------------------------------------------------------ pattern search

  /** The float of an amount match: spaces dropped, the comma read as a point; nothing if that fails. */
  function AmountValue(m: string): Option<real>
  {
    ParseFloat(MapChar(ReplaceAll(m, " ", ""), ',', '.'))
  }

  /** A match with its float, when it parses. */
  function ParsedAmount(m: string): Option<(real, string)>
  {
    match AmountValue(m)
    case Some(v) => Some((v, m))
    case None => None
  }

  /** The index of the first largest amount, as Python's `max` by value picks it. */
  function MaxAt(amounts: seq<(real, string)>): (i: nat)
    requires |amounts| > 0
    ensures i < |amounts|
  {
    var n := |amounts| - 1;
    if n == 0 then 0
    else
      var best := MaxAt(amounts[..n]);
      if amounts[n].0 > amounts[best].0 then n else best
  }

  /** The chosen amount is at least every other, and larger than every one before it. */
  lemma {:induction false} MaxAtMeaning(amounts: seq<(real, string)>)
    requires |amounts| > 0
    ensures forall j | 0 <= j < |amounts| :: amounts[j].0 <= amounts[MaxAt(amounts)].0
    ensures forall j | 0 <= j < MaxAt(amounts) :: amounts[j].0 < amounts[MaxAt(amounts)].0
  {
    var n := |amounts| - 1;
    if n > 0 {
      MaxAtMeaning(amounts[..n]);
      assert forall j | 0 <= j < n :: amounts[..n][j] == amounts[j];
    }
  }

  /** `max(amounts, key=...)`: a scan that replaces the best only by a strictly larger amount. */
  method FindLargestAmount(amounts: seq<(real, string)>) returns (best: nat)
    requires |amounts| > 0
    ensures best == MaxAt(amounts)
  {
    best := 0;
    for i := 1 to |amounts|
      invariant best == MaxAt(amounts[..i])
    {
      assert amounts[..i + 1][..i] == amounts[..i];
      if amounts[i].0 > amounts[best].0 {
        best := i;
      }
    }
    assert amounts[..|amounts|] == amounts;
  }

  /** `extract_by_patterns` as a value, given what the field's pattern finds in the text. */
  function PatternExtraction(f: FieldType, matches: seq<string>): Extraction
  {
    if |matches| == 0 then Extraction(None, 0.0)
    else match f
      case Amount =>
        var amounts := Collect(matches, ParsedAmount);
        if |amounts| > 0 then Extraction(Some(amounts[MaxAt(amounts)].1), PatternConfidence)
        else Extraction(None, 0.0)
      case Date => Extraction(Some(NormalizeDate(matches[0])), PatternConfidence)
      case _ => Extraction(Some(matches[0]), PatternConfidence)
  }

  /**
   * The amount the pattern search keeps is the match of a largest parsed
   * amount, and there is one exactly when some match parses; which matches
   * parse is what `Text.CollectExactly` states of the collected pairs.
   */
  lemma PatternAmountMeaning(matches: seq<string>)
    ensures var e := PatternExtraction(Amount, matches);
            var amounts := Collect(matches, ParsedAmount);
            && (e.value.Some? <==> |amounts| > 0)
            && (e.value.Some? ==>
                  exists k | 0 <= k < |amounts| ::
                    amounts[k].1 == e.value.value && forall j | 0 <= j < |amounts| :: amounts[j].0 <= amounts[k].0)
  {
    var amounts := Collect(matches, ParsedAmount);
    if |amounts| > 0 {
      MaxAtMeaning(amounts);
      assert |matches| > 0;
      var k := MaxAt(amounts);
      assert amounts[k].1 == PatternExtraction(Amount, matches).value.value;
    }
  }

  /**
   * `extract_by_patterns`: the largest parseable amount (the first of
   * equals), the first date normalised, the first provider or address.
   */
  method ExtractByPatterns(f: FieldType, matches: seq<string>) returns (value: Option<string>, confidence: real)
    ensures Extraction(value, confidence) == PatternExtraction(f, matches)
  {
    if |matches| == 0 {
      return None, 0.0;
    }
    match f {
      case Amount =>
        var amounts := CollectPresent(matches, ParsedAmount);
        if |amounts| > 0 {
          var largest := FindLargestAmount(amounts);
          return Some(amounts[largest].1), PatternConfidence;
        }
        return None, 0.0;
      case Date =>
        return Some(NormalizeDate(matches[0])), PatternConfidence;
      case _ =>
        return Some(matches[0]), PatternConfidence;
    }
  }

  // ---------------------------------------------------------- the record

  /** The value kept for a field: the keyword result unless it is empty or unsure and the fallback is surer. */
  function Choose(keyword: Extraction, fallback: Extraction): (r: Extraction)
    ensures r == keyword || r == fallback
    ensures r == fallback && r != keyword ==> fallback.confidence > keyword.confidence && Truthy(fallback.value)
  {
    if (!Truthy(keyword.value) || keyword.confidence < CertainConfidence)
       && Truthy(fallback.value) && fallback.confidence > keyword.confidence
    then fallback
    else keyword
  }

  /** The confidences the keyword search gives: keyword confidence with a value, zero without. */
  predicate KeywordLevels(e: Extraction)
  {
    e.confidence == if e.value.Some? then KeywordConfidence else 0.0
  }

  /** The confidences the pattern search gives: pattern confidence with a value, zero without. */
  predicate PatternLevels(e: Extraction)
  {
    e.confidence == if e.value.Some? then PatternConfidence else 0.0
  }

  lemma ExtractionLevels(text: string, f: FieldType, amountMatch: string -> Option<string>,
                         dateMatch: string -> Option<string>, matches: seq<string>)
    ensures KeywordLevels(KeywordExtraction(text, f, amountMatch, dateMatch))
    ensures PatternLevels(PatternExtraction(f, matches))
  {
  }

  /**
   * With the confidences the two searches give, any keyword value wins (an
   * empty one too, which then leaves the field unfound), the fallback is
   * taken exactly when it has a non-empty value and the keyword search found
   * nothing, and a kept value is uncertain exactly when it came from the
   * fallback.
   */
  lemma FallbackRule(kw: Extraction, fb: Extraction)
    requires KeywordLevels(kw) && PatternLevels(fb)
    ensures kw.value.Some? ==> Choose(kw, fb) == kw
    ensures kw.value.None? ==> Choose(kw, fb) == if Truthy(fb.value) then fb else kw
    ensures Truthy(Choose(kw, fb).value) && Choose(kw, fb).confidence < CertainConfidence
            <==> kw.value.None? && Truthy(fb.value)
  {
  }

  /** The field's final extraction in the record. */
  function Chosen(text: string, f: FieldType, amountMatch: string -> Option<string>,
                  dateMatch: string -> Option<string>, patternMatches: FieldType -> seq<string>): Extraction
  {
    Choose(KeywordExtraction(text, f, amountMatch, dateMatch), PatternExtraction(f, patternMatches(f)))
  }

  /** The kept extractions of the fields `fs`, in order. */
  function ExtractionsOf(text: string, fs: seq<FieldType>, amountMatch: string -> Option<string>,
                         dateMatch: string -> Option<string>, patternMatches: FieldType -> seq<string>): (es: seq<Extraction>)
    ensures |es| == |fs|
  {
    if |fs| == 0 then []
    else ExtractionsOf(text, fs[..|fs| - 1], amountMatch, dateMatch, patternMatches)
         + [Chosen(text, fs[|fs| - 1], amountMatch, dateMatch, patternMatches)]
  }

  /** A field's entry in the record: its kept value if non-empty, else `NOT_FOUND`. */
  function Entry(e: Extraction): string
  {
    if Truthy(e.value) then e.value.value else NotFound
  }

  /** A kept value below the certainty threshold. */
  predicate Uncertain(e: Extraction)
  {
    Truthy(e.value) && e.confidence < CertainConfidence
  }

  /** The uncertainty flag: `NEM`, or `IGEN: ` and the uncertain keys. */
  function Flag(uncertain: seq<string>): string
  {
    if |uncertain| == 0 then "NEM" else "IGEN: " + Join(uncertain, ", ")
  }

  /** The record before extraction. */
  function InitialRecord(fileName: string): map<string, string>
  {
    map["fájlnév" := fileName, "összeg" := NotFound, "pénznem" := "Ft", "számla_kelte" := NotFound,
        "szolgáltató" := NotFound, "fogyasztó_címe" := NotFound, "feldolgozási_státusz" := "SIKERES",
        "bizonytalanság_flag" := "NEM"]
  }

  /** The record once the first `|es|` fields have been stored: each non-empty value under its key. */
  function RecordAfter(fileName: string, es: seq<Extraction>): map<string, string>
    requires |es| <= |Fields|
  {
    if |es| == 0 then InitialRecord(fileName)
    else
      var n := |es| - 1;
      var r := RecordAfter(fileName, es[..n]);
      if Truthy(es[n].value) then r[ResultKey(Fields[n]) := es[n].value.value] else r
  }

  /** The keys of the uncertain fields among the first `|es|`, in field order. */
  function UncertainAfter(es: seq<Extraction>): seq<string>
    requires |es| <= |Fields|
  {
    if |es| == 0 then []
    else
      var n := |es| - 1;
      UncertainAfter(es[..n]) + if Uncertain(es[n]) then [ResultKey(Fields[n])] else []
  }

  /** The record `extract_bill_info` returns for the kept extractions of the four fields. */
  function BillRecord(fileName: string, es: seq<Extraction>): map<string, string>
    requires |es| == |Fields|
  {
    RecordAfter(fileName, es)["bizonytalanság_flag" := Flag(UncertainAfter(es))]
  }

  /** Distinct fields are stored under distinct keys, none of them a key of the fixed entries. */
  lemma ResultKeyDistinct(f: FieldType, g: FieldType)
    ensures f != g ==> ResultKey(f) != ResultKey(g)
    ensures ResultKey(f) !in ["fájlnév", "pénznem", "feldolgozási_státusz", "bizonytalanság_flag"]
  {
  }

  function FieldIndex(f: FieldType): (i: nat)
    ensures i < |Fields| && Fields[i] == f
  {
    match f
    case Amount => 0
    case Date => 1
    case Provider => 2
    case Address => 3
  }

  /** Storing one more field. */
  lemma RecordStep(fileName: string, es: seq<Extraction>, e: Extraction)
    requires |es| < |Fields|
    ensures RecordAfter(fileName, es + [e])
            == if Truthy(e.value) then RecordAfter(fileName, es)[ResultKey(Fields[|es|]) := e.value.value]
               else RecordAfter(fileName, es)
    ensures UncertainAfter(es + [e]) == UncertainAfter(es) + if Uncertain(e) then [ResultKey(Fields[|es|])] else []
  {
    assert (es + [e])[..|es|] == es;
  }

  /** After storing the first `|es|` fields: their entries, `NOT_FOUND` for the rest, the fixed entries as they were. */
  lemma {:induction false} RecordAfterMeaning(fileName: string, es: seq<Extraction>)
    requires |es| <= |Fields|
    ensures var r := RecordAfter(fileName, es);
            && r.Keys == InitialRecord(fileName).Keys
            && r["fájlnév"] == fileName && r["pénznem"] == "Ft"
            && r["feldolgozási_státusz"] == "SIKERES" && r["bizonytalanság_flag"] == "NEM"
            && forall g: FieldType :: r[ResultKey(g)] == if FieldIndex(g) < |es| then Entry(es[FieldIndex(g)]) else NotFound
  {
    if |es| > 0 {
      var n := |es| - 1;
      RecordAfterMeaning(fileName, es[..n]);
      var before := RecordAfter(fileName, es[..n]);
      var r := RecordAfter(fileName, es);
      ResultKeyDistinct(Fields[n], Fields[n]);
      forall g: FieldType
        ensures r[ResultKey(g)] == if FieldIndex(g) < |es| then Entry(es[FieldIndex(g)]) else NotFound
      {
        ResultKeyDistinct(g, Fields[n]);
        if g != Fields[n] {
          assert r[ResultKey(g)] == before[ResultKey(g)];
          assert FieldIndex(g) < n ==> es[..n][FieldIndex(g)] == es[FieldIndex(g)];
        }
      }
    }
  }

  /** A field's key is listed as uncertain exactly when it is among the first `|es|` and its kept value is uncertain. */
  lemma {:induction false} UncertainAfterMeaning(es: seq<Extraction>)
    requires |es| <= |Fields|
    ensures forall g: FieldType :: ResultKey(g) in UncertainAfter(es) <==> FieldIndex(g) < |es| && Uncertain(es[FieldIndex(g)])
    ensures |UncertainAfter(es)| == 0 <==> forall k | 0 <= k < |es| :: !Uncertain(es[k])
  {
    if |es| > 0 {
      var n := |es| - 1;
      UncertainAfterMeaning(es[..n]);
      forall g: FieldType
        ensures ResultKey(g) in UncertainAfter(es) <==> FieldIndex(g) < |es| && Uncertain(es[FieldIndex(g)])
      {
        ResultKeyDistinct(g, Fields[n]);
        assert FieldIndex(g) < n ==> es[..n][FieldIndex(g)] == es[FieldIndex(g)];
      }
      assert forall k | 0 <= k < n :: es[..n][k] == es[k];
    }
  }

  /**
   * The finished record: the fixed entries, each field's non-empty kept value
   * or `NOT_FOUND`, and the flag `NEM` when no kept value is uncertain, else
   * `IGEN: ` and the uncertain keys.
   */
  lemma BillRecordMeaning(fileName: string, es: seq<Extraction>)
    requires |es| == |Fields|
    ensures var r := BillRecord(fileName, es);
            && r.Keys == InitialRecord(fileName).Keys
            && r["fájlnév"] == fileName && r["pénznem"] == "Ft" && r["feldolgozási_státusz"] == "SIKERES"
            && (forall g: FieldType :: r[ResultKey(g)] == Entry(es[FieldIndex(g)]))
            && (r["bizonytalanság_flag"] == "NEM" <==> forall k | 0 <= k < |es| :: !Uncertain(es[k]))
            && (forall g: FieldType :: ResultKey(g) in UncertainAfter(es) <==> Uncertain(es[FieldIndex(g)]))
  {
    RecordAfterMeaning(fileName, es);
    UncertainAfterMeaning(es);
    forall g: FieldType ensures BillRecord(fileName, es)[ResultKey(g)] == Entry(es[FieldIndex(g)]) {
      ResultKeyDistinct(g, g);
    }
    if |UncertainAfter(es)| > 0 {
      assert Flag(UncertainAfter(es))[..6] == "IGEN: ";
    }
  }

  /** Setting the flag at the end of `extract_bill_info`: only a non-empty list of uncertain keys changes the record. */
  lemma FlagFinish(fileName: string, es: seq<Extraction>)
    requires |es| == |Fields|
    ensures |UncertainAfter(es)| == 0 ==> BillRecord(fileName, es) == RecordAfter(fileName, es)
    ensures |UncertainAfter(es)| > 0 ==>
              BillRecord(fileName, es) == RecordAfter(fileName, es)["bizonytalanság_flag" := "IGEN: " + Join(UncertainAfter(es), ", ")]
  {
    RecordAfterMeaning(fileName, es);
  }

  /** One field of `extract_bill_info`: the keyword search, then the pattern search if that is empty or unsure. */
  method ExtractField(text: string, f: FieldType, amountMatch: string -> Option<string>,
                      dateMatch: string -> Option<string>, patternMatches: FieldType -> seq<string>)
    returns (value: Option<string>, confidence: real)
    ensures Extraction(value, confidence) == Chosen(text, f, amountMatch, dateMatch, patternMatches)
  {
    value, confidence := FindFieldByKeywords(text, f, amountMatch, dateMatch);
    if !Truthy(value) || confidence < CertainConfidence {
      var fallbackValue, fallbackConfidence := ExtractByPatterns(f, patternMatches(f));
      if Truthy(fallbackValue) && fallbackConfidence > confidence {
        value, confidence := fallbackValue, fallbackConfidence;
      }
    }
  }

  lemma ExtractionsStep(text: string, i: nat, amountMatch: string -> Option<string>,
                        dateMatch: string -> Option<string>, patternMatches: FieldType -> seq<string>)
    requires i < |Fields|
    ensures ExtractionsOf(text, Fields[..i + 1], amountMatch, dateMatch, patternMatches)
            == ExtractionsOf(text, Fields[..i], amountMatch, dateMatch, patternMatches)
               + [Chosen(text, Fields[i], amountMatch, dateMatch, patternMatches)]
  {
    assert Fields[..i + 1][..i] == Fields[..i];
  }

  /** Storing field `i` of `extract_bill_info`: a non-empty value under its key, an uncertain one noted. */
  method StoreField(ghost fileName: string, ghost es: seq<Extraction>, i: nat, result: map<string, string>,
                    uncertainFields: seq<string>, value: Option<string>, confidence: real)
    returns (newResult: map<string, string>, newUncertain: seq<string>)
    requires i == |es| < |Fields|
    requires result == RecordAfter(fileName, es) && uncertainFields == UncertainAfter(es)
    ensures newResult == RecordAfter(fileName, es + [Extraction(value, confidence)])
    ensures newUncertain == UncertainAfter(es + [Extraction(value, confidence)])
  {
    RecordStep(fileName, es, Extraction(value, confidence));
    newResult, newUncertain := result, uncertainFields;
    var resultKey := ResultKey(Fields[i]);
    if Truthy(value) {
      newResult := newResult[resultKey := value.value];
      if confidence < CertainConfidence {
        newUncertain := newUncertain + [resultKey];
      }
    }
  }

  /**
   * `extract_bill_info`, given the extracted text (empty when extraction
   * failed) and what the patterns match: without text, the initial record
   * with an error status; otherwise the record of the fields' kept values.
   */
  method ExtractBillInfo(fileName: string, text: string, amountMatch: string -> Option<string>,
                         dateMatch: string -> Option<string>, patternMatches: FieldType -> seq<string>)
    returns (result: map<string, string>)
    ensures text == "" ==> result == InitialRecord(fileName)["feldolgozási_státusz" := "HIBA: Szöveg kinyerés sikertelen"]
    ensures text != "" ==> result == BillRecord(fileName, ExtractionsOf(text, Fields, amountMatch, dateMatch, patternMatches))
  {
    result := InitialRecord(fileName);
    if text == "" {
      result := result["feldolgozási_státusz" := "HIBA: Szöveg kinyerés sikertelen"];
      return;
    }
    var uncertainFields: seq<string> := [];
    for i := 0 to |Fields|
      invariant result == RecordAfter(fileName, ExtractionsOf(text, Fields[..i], amountMatch, dateMatch, patternMatches))
      invariant uncertainFields == UncertainAfter(ExtractionsOf(text, Fields[..i], amountMatch, dateMatch, patternMatches))
    {
      var fieldType := Fields[i];
      var value, confidence := ExtractField(text, fieldType, amountMatch, dateMatch, patternMatches);
      ExtractionsStep(text, i, amountMatch, dateMatch, patternMatches);
      result, uncertainFields := StoreField(fileName, ExtractionsOf(text, Fields[..i], amountMatch, dateMatch, patternMatches),
                                            i, result, uncertainFields, value, confidence);
    }
    assert Fields[..|Fields|] == Fields;
    FlagFinish(fileName, ExtractionsOf(text, Fields, amountMatch, dateMatch, patternMatches));
    if |uncertainFields| > 0 {
      result := result["bizonytalanság_flag" := "IGEN: " + Join(uncertainFields, ", ")];
    }
  }
}
