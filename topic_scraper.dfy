// Reading a topic's page text: which links of a category page are topics,
// the external partner, the student limit and the advisors. The page text is
// given; fetching and parsing the HTML is outside the model. Lines are the
// pieces between newline characters.

module TopicScraper {
  import opened Text
  import opened Numbers

  const ExternalPartnerText: string := "Külső partner:"
  const StudentLimitText: string := "Maximális létszám:"
  const AdvisorsSectionText: string := "Konzulensek"

  /** `page_text.split('\n')`. */
  function Lines(pageText: string): seq<string>
  {
    Split(pageText, '\n')
  }

  /**
   * `_is_topic_link`: not a staff profile, no academic title in the link
   * text, at least three characters once stripped, and a task URL.
   */
  predicate IsTopicLink(title: string, url: string)
  {
    if Contains(url, "/Staff/") then false
    else if Contains(title, "Dr.") || Contains(title, "Prof.") || Contains(title, "PhD") then false
    else if |Strip(title)| < 3 then false
    else Contains(url, "/Task/")
  }

  /**
   * The rule of `_is_topic_link` by position: the link is a topic exactly when
   * no `/Staff/` sits in the url, none of `Dr.`, `Prof.`, `PhD` sits in the
   * title, the stripped title has at least three characters, and `/Task/`
   * sits in the url.
   */
  lemma TopicLinkRule(title: string, url: string)
    ensures IsTopicLink(title, url) <==>
      && (forall i :: !OccursAt(url, "/Staff/", i))
      && (forall i :: !OccursAt(title, "Dr.", i) && !OccursAt(title, "Prof.", i) && !OccursAt(title, "PhD", i))
      && |Strip(title)| >= 3
      && (exists i :: OccursAt(url, "/Task/", i))
  {
    ContainsExactly(url, "/Staff/");
    ContainsExactly(url, "/Task/");
    ContainsExactly(title, "Dr.");
    ContainsExactly(title, "Prof.");
    ContainsExactly(title, "PhD");
  }

  /** A link after the topics heading: its text and its url joined to the category page. */
  datatype Link = Link(text: string, url: string)

  /** One link, as its text and its joined url: the stripped text and url when the loop keeps it. */
  function TopicLinkOf(link: Link): (r: Option<Link>)
    ensures r.Some? <==> Strip(link.text) != "" && link.url != "" && IsTopicLink(Strip(link.text), link.url)
    ensures r.Some? ==> r.value == Link(Strip(link.text), link.url)
  {
    var title, url := Strip(link.text), link.url;
    if title != "" && url != "" && IsTopicLink(title, url) then Some(Link(title, url)) else None
  }

  /**
   * The filter of `_extract_topic_links` over the links after the topics
   * heading, in page order.
   */
  function TopicLinks(links: seq<Link>): seq<Link>
  {
    Collect(links, TopicLinkOf)
  }

  /**
   * The kept links are exactly the links `TopicLinkOf` keeps, each a non-empty
   * stripped title of a topic link.
   */
  lemma TopicLinksExactly(links: seq<Link>)
    ensures |TopicLinks(links)| <= |links|
    ensures forall p :: p in TopicLinks(links) <==> exists k | 0 <= k < |links| :: TopicLinkOf(links[k]) == Some(p)
    ensures forall p | p in TopicLinks(links) :: p.text != "" && p.url != "" && IsTopicLink(p.text, p.url)
  {
    CollectExactly(links, TopicLinkOf);
    forall p | p in TopicLinks(links) ensures p.text != "" && p.url != "" && IsTopicLink(p.text, p.url) {
      var k :| 0 <= k < |links| && TopicLinkOf(links[k]) == Some(p);
    }
  }

  /** A text with `sub` at its front keeps `sub` at the front of its first line, when `sub` has no separator. */
  lemma {:induction false} PrefixInFirstPart(t: string, sub: string, sep: char)
    requires sub <= t && sep !in sub
    ensures sub <= Split(t, sep)[0]
    decreases |t|
  {
    if |sub| > 0 {
      PrefixInFirstPart(t[1..], sub[1..], sep);
      assert sub == [sub[0]] + sub[1..];
    }
  }

  /** A piece without the separator that occurs in a text occurs in one of its parts. */
  lemma {:induction false} ContainsInSomePart(s: string, sub: string, sep: char)
    requires Contains(s, sub) && sep !in sub
    ensures exists i | 0 <= i < |Split(s, sep)| :: Contains(Split(s, sep)[i], sub)
    decreases |s|
  {
    var parts := Split(s, sep);
    if sub <= s {
      if |sub| == 0 {
        assert Contains(parts[0], sub);
      } else {
        assert s[0] == sub[0] && s[0] != sep;
        PrefixInFirstPart(s[1..], sub[1..], sep);
        assert sub == [s[0]] + sub[1..];
        assert sub <= parts[0];
        assert Contains(parts[0], sub);
      }
    } else {
      ContainsInSomePart(s[1..], sub, sep);
      var rest := Split(s[1..], sep);
      var j :| 0 <= j < |rest| && Contains(rest[j], sub);
      if s[0] == sep {
        assert parts[j + 1] == rest[j];
      } else if j == 0 {
        assert parts[0][1..] == rest[0];
        assert Contains(parts[0], sub);
      } else {
        assert parts[j] == rest[j];
      }
    }
  }

  /** The partner named on marker line `i`: its own text without the marker, else the next line; nothing if empty. */
  function PartnerOf(lines: seq<string>, i: nat): Option<string>
    requires i < |lines|
  {
    var own := Strip(ReplaceAll(lines[i], ExternalPartnerText, ""));
    var partner := if own == "" && i + 1 < |lines| then Strip(lines[i + 1]) else own;
    if partner == "" then None else Some(partner)
  }

  /**
   * `_extract_external_partner_info`: external exactly when the page names
   * a partner marker, and then the partner of the first marker line.
   */
  method ExtractExternalPartnerInfo(pageText: string) returns (isExternal: bool, partner: Option<string>)
    ensures isExternal <==> Contains(pageText, ExternalPartnerText)
    ensures !isExternal ==> partner == None
    ensures isExternal ==> exists i | 0 <= i < |Lines(pageText)| ::
              && Contains(Lines(pageText)[i], ExternalPartnerText)
              && (forall j | 0 <= j < i :: !Contains(Lines(pageText)[j], ExternalPartnerText))
              && partner == PartnerOf(Lines(pageText), i)
    ensures partner.Some? ==> partner.value != "" && Strip(partner.value) == partner.value
  {
    if Contains(pageText, ExternalPartnerText) {
      var lines := Lines(pageText);
      for i := 0 to |lines|
        invariant forall j | 0 <= j < i :: !Contains(lines[j], ExternalPartnerText)
      {
        if Contains(lines[i], ExternalPartnerText) {
          PartnerStripped(lines, i);
          return true, PartnerOf(lines, i);
        }
      }
      ContainsInSomePart(pageText, ExternalPartnerText, '\n');
      assert false;
    }
    return false, None;
  }

  lemma PartnerStripped(lines: seq<string>, i: nat)
    requires i < |lines|
    ensures PartnerOf(lines, i).Some? ==> Strip(PartnerOf(lines, i).value) == PartnerOf(lines, i).value
  {
    StripIdempotent(ReplaceAll(lines[i], ExternalPartnerText, ""));
    if i + 1 < |lines| {
      StripIdempotent(lines[i + 1]);
    }
  }

  predicate NotDigit(c: char) { !IsDigit(c) }

  /** `re.findall(r'\d+', line)[0]` read as an integer: the value of the first run of digits. */
  function FirstNumber(line: string): (r: Option<nat>)
    ensures r.Some? <==> exists k | 0 <= k < |line| :: IsDigit(line[k])
    ensures r.Some? ==> exists d, e | 0 <= d < e <= |line| ::
              && (forall k | 0 <= k < d :: !IsDigit(line[k]))
              && AllDigits(line[d..e]) && (e == |line| || !IsDigit(line[e]))
              && r.value == DigitsValue(line[d..e])
  {
    var d := RunEnd(line, 0, NotDigit);
    if d == |line| then None
    else
      var e := RunEnd(line, d, IsDigit);
      assert AllDigits(line[d..e]);
      Some(DigitsValue(line[d..e]))
  }

  /** A line `_extract_student_limit` takes its limit from: the marker and a digit. */
  predicate LimitLine(line: string)
  {
    Contains(line, StudentLimitText) && FirstNumber(line).Some?
  }

  /** `_extract_student_limit`: the first number on the first marker line that has one; else nothing. */
  method ExtractStudentLimit(pageText: string) returns (limit: Option<nat>)
    ensures limit.None? <==> forall i | 0 <= i < |Lines(pageText)| :: !LimitLine(Lines(pageText)[i])
    ensures limit.Some? ==> exists i | 0 <= i < |Lines(pageText)| ::
              && LimitLine(Lines(pageText)[i])
              && (forall j | 0 <= j < i :: !LimitLine(Lines(pageText)[j]))
              && limit == FirstNumber(Lines(pageText)[i])
  {
    var lines := Lines(pageText);
    for i := 0 to |lines|
      invariant forall j | 0 <= j < i :: !LimitLine(lines[j])
    {
      var line := lines[i];
      if Contains(line, StudentLimitText) {
        var numbers := FirstNumber(line);
        if numbers.Some? {
          assert LimitLine(lines[i]) && numbers == FirstNumber(lines[i]);
          return numbers;
        }
      }
    }
    return None;
  }

  /** A run of characters that all satisfy `p` is skipped whole. */
  lemma {:induction false} RunEndSkips(s: string, i: nat, j: nat, p: char -> bool)
    requires i <= j <= |s| && forall k | i <= k < j :: p(s[k])
    ensures RunEnd(s, i, p) == RunEnd(s, j, p)
    decreases j - i
  {
    if i < j {
      RunEndSkips(s, i + 1, j, p);
    }
  }

  /** The limit a page states as `Maximális létszám: <n> fő` reads back as `n`. */
  lemma StudentLimitRoundTrip(n: nat)
    ensures FirstNumber(StudentLimitText + " " + NatString(n) + " fő") == Some(n)
  {
    var head := StudentLimitText + " ";
    var digits := NatString(n);
    var line := head + digits + " fő";
    assert forall k | 0 <= k < |head| :: line[k] == head[k] && NotDigit(line[k]);
    RunEndSkips(line, 0, |head|, NotDigit);
    assert line[|head|] == digits[0] && IsDigit(digits[0]);
    var d := |head|;
    var e := d + |digits|;
    assert forall k | d <= k < e :: line[k] == digits[k - d];
    RunEndSkips(line, d, e, IsDigit);
    assert line[e] == ' ';
    assert line[d..e] == digits;
  }

  /** Whether a stripped advisors-section line names another section, ignoring case. */
  predicate EndsSection(line: string)
  {
    var lower := Lower(line);
    Contains(lower, "külső") || Contains(lower, "maximális") || Contains(lower, "részletek")
  }

  predicate IsBullet(line: string)
  {
    "•" <= line || "-" <= line
  }

  /**
   * The advisors found in the remaining lines, inside the section or not
   * yet: a marker line (re)opens the section and is skipped; inside it,
   * bullets are skipped, an empty line or one naming another section ends
   * the search, and any other line is an advisor.
   */
  function AdvisorsIn(lines: seq<string>, inSection: bool): seq<string>
  {
    if |lines| == 0 then []
    else
      var line := Strip(lines[0]);
      if Contains(line, AdvisorsSectionText) then AdvisorsIn(lines[1..], true)
      else if !inSection then AdvisorsIn(lines[1..], false)
      else if line == "" then []
      else if IsBullet(line) then AdvisorsIn(lines[1..], true)
      else if EndsSection(line) then []
      else [line] + AdvisorsIn(lines[1..], true)
  }

  /** `_extract_advisors`. */
  method ExtractAdvisors(pageText: string) returns (advisors: seq<string>)
    ensures advisors == AdvisorsIn(Lines(pageText), false)
  {
    advisors := [];
    var lines := Lines(pageText);
    var inAdvisorsSection := false;
    for i := 0 to |lines|
      invariant advisors + AdvisorsIn(lines[i..], inAdvisorsSection) == AdvisorsIn(lines, false)
    {
      assert lines[i..][1..] == lines[i + 1..];
      var line := Strip(lines[i]);
      if Contains(line, AdvisorsSectionText) {
        inAdvisorsSection := true;
        continue;
      }
      if inAdvisorsSection {
        if line != "" && !("•" <= line) && !("-" <= line) {
          if EndsSection(line) {
            assert advisors + [] == advisors;
            return;
          }
          advisors := advisors + [line];
        } else if line == "" {
          assert advisors + [] == advisors;
          return;
        }
      }
    }
    assert advisors + [] == advisors;
  }

  /** A line as an advisor may be listed: stripped, non-empty, no bullet, no other section, no section marker. */
  predicate CleanAdvisor(a: string)
  {
    a != "" && Strip(a) == a && !IsBullet(a) && !EndsSection(a) && !Contains(a, AdvisorsSectionText)
  }

  /** What the first line does: ends the search, is skipped (opening the section or not), or is a clean advisor. */
  lemma AdvisorsStep(lines: seq<string>, inSection: bool)
    requires |lines| > 0
    ensures || AdvisorsIn(lines, inSection) == []
            || AdvisorsIn(lines, inSection) == AdvisorsIn(lines[1..], true)
            || AdvisorsIn(lines, inSection) == AdvisorsIn(lines[1..], false)
            || (CleanAdvisor(Strip(lines[0]))
                && AdvisorsIn(lines, inSection) == [Strip(lines[0])] + AdvisorsIn(lines[1..], true))
  {
    StripIdempotent(lines[0]);
  }

  /** Every advisor is a clean line. */
  lemma {:induction false} AdvisorsClean(lines: seq<string>, inSection: bool)
    ensures forall a | a in AdvisorsIn(lines, inSection) :: CleanAdvisor(a)
  {
    if |lines| > 0 {
      AdvisorsStep(lines, inSection);
      AdvisorsClean(lines[1..], true);
      AdvisorsClean(lines[1..], false);
    }
  }

  /** Every advisor is one of the page's lines, stripped. */
  lemma {:induction false} AdvisorsFromPage(lines: seq<string>, inSection: bool)
    ensures forall a | a in AdvisorsIn(lines, inSection) :: a in StripEach(lines)
  {
    if |lines| > 0 {
      AdvisorsStep(lines, inSection);
      AdvisorsFromPage(lines[1..], true);
      AdvisorsFromPage(lines[1..], false);
    }
  }

  /** No advisor is listed before the first section marker: a page without one has none. */
  lemma {:induction false} NoSectionNoAdvisors(lines: seq<string>)
    requires forall i | 0 <= i < |lines| :: !Contains(Strip(lines[i]), AdvisorsSectionText)
    ensures AdvisorsIn(lines, false) == []
  {
    if |lines| > 0 {
      NoSectionNoAdvisors(lines[1..]);
      assert forall i | 0 <= i < |lines[1..]| :: lines[1..][i] == lines[i + 1];
    }
  }
}
