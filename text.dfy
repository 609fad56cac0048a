// Shared vocabulary: optional values, error results and the handful of
// string operations (Python's str methods, .NET's ordinal comparisons) that
// the modelled programs use. Strings are sequences of Unicode scalar values.

module Text {

  datatype Option<T> = None | Some(value: T)

  datatype Result<T, E> = Ok(value: T) | Err(error: E)

  /** Python's `sub in s` (and .NET's `Contains`): some slice of `s` equals `sub`. */
  predicate Contains(s: string, sub: string)
    decreases |s|
  {
    sub <= s || (|s| > 0 && Contains(s[1..], sub))
  }

  /** `sub` sits at position `i` of `s`. */
  predicate OccursAt(s: string, sub: string, i: int)
  {
    0 <= i && i + |sub| <= |s| && s[i..i + |sub|] == sub
  }

  lemma SliceOfTail(s: string, i: nat, n: nat)
    requires i + n < |s|
    ensures s[1..][i..i + n] == s[i + 1..i + 1 + n]
  {
  }

  /** Python's `sub in s`, stated by position: `Contains` finds `sub` iff it sits somewhere in `s`. */
  lemma {:induction false} ContainsExactly(s: string, sub: string)
    ensures Contains(s, sub) <==> exists i :: OccursAt(s, sub, i)
    decreases |s|
  {
    if Contains(s, sub) {
      if sub <= s {
        assert s[0..|sub|] == sub;
        assert OccursAt(s, sub, 0);
      } else {
        ContainsExactly(s[1..], sub);
        var i :| OccursAt(s[1..], sub, i);
        SliceOfTail(s, i, |sub|);
        assert OccursAt(s, sub, i + 1);
      }
    }
    if exists i :: OccursAt(s, sub, i) {
      var i :| OccursAt(s, sub, i);
      if i == 0 {
        assert s[..|sub|] == s[0..|sub|];
        assert sub <= s;
      } else {
        SliceOfTail(s, i - 1, |sub|);
        assert OccursAt(s[1..], sub, i - 1);
        ContainsExactly(s[1..], sub);
      }
    }
  }

  /** Index of the first occurrence of `sub` in `s` (Python's `find`, without the -1). */
  function Find(s: string, sub: string): (r: Option<nat>)
    decreases |s|
    ensures r.Some? <==> Contains(s, sub)
    ensures r.Some? ==> r.value + |sub| <= |s| && s[r.value..r.value + |sub|] == sub
  {
    if sub <= s then Some(0)
    else if |s| == 0 then None
    else match Find(s[1..], sub)
      case None => None
      case Some(i) => Some(i + 1)
  }

  /** Python's `str.isspace` for one character. */
  predicate IsSpace(c: char)
  {
    c == ' ' || ('\t' <= c <= '\r') || ('\U{1C}' <= c <= '\U{1F}') || c == '\U{85}' || c == '\U{A0}'
    || c == '\U{1680}' || ('\U{2000}' <= c <= '\U{200A}') || c == '\U{2028}' || c == '\U{2029}'
    || c == '\U{202F}' || c == '\U{205F}' || c == '\U{3000}'
  }

  function TrimStart(s: string): (r: string)
    decreases |s|
    ensures |r| <= |s| && s[|s| - |r|..] == r
    ensures |r| > 0 ==> !IsSpace(r[0])
    ensures forall i | 0 <= i < |s| - |r| :: IsSpace(s[i])
  {
    if |s| > 0 && IsSpace(s[0]) then TrimStart(s[1..]) else s
  }

  function TrimEnd(s: string): (r: string)
    decreases |s|
    ensures r <= s
    ensures |r| > 0 ==> !IsSpace(r[|r| - 1])
    ensures forall i | |r| <= i < |s| :: IsSpace(s[i])
  {
    if |s| > 0 && IsSpace(s[|s| - 1]) then TrimEnd(s[..|s| - 1]) else s
  }

  /** Python's `str.strip()`. */
  function Strip(s: string): (r: string)
    ensures |r| > 0 ==> !IsSpace(r[0]) && !IsSpace(r[|r| - 1])
    ensures |r| <= |s|
  {
    TrimEnd(TrimStart(s))
  }

  /** Every string of `xs`, stripped: `[x.strip() for x in xs]`. */
  function StripEach(xs: seq<string>): seq<string>
  {
    if |xs| == 0 then [] else [Strip(xs[0])] + StripEach(xs[1..])
  }

  lemma StripIdempotent(s: string)
    ensures Strip(Strip(s)) == Strip(s)
  {
    var r := Strip(s);
    assert |r| > 0 ==> !IsSpace(r[0]);
    assert TrimStart(r) == r;
    assert |r| > 0 ==> !IsSpace(r[|r| - 1]);
    assert TrimEnd(r) == r;
  }

  /** Upper-case mapping of Basic Latin, Latin-1 and the Hungarian double-acute letters. */
  function UpperChar(c: char): char
  {
    if 'a' <= c <= 'z' || ('\U{E0}' <= c <= '\U{FE}' && c != '\U{F7}') then (c as int - 32) as char
    else if c == 'ő' || c == 'ű' then (c as int - 1) as char
    else c
  }

  /** Lower-case mapping of Basic Latin, Latin-1 and the Hungarian double-acute letters. */
  function LowerChar(c: char): char
  {
    if 'A' <= c <= 'Z' || ('\U{C0}' <= c <= '\U{DE}' && c != '\U{D7}') then (c as int + 32) as char
    else if c == 'Ő' || c == 'Ű' then (c as int + 1) as char
    else c
  }

  function Upper(s: string): (r: string)
    ensures |r| == |s| && forall i | 0 <= i < |s| :: r[i] == UpperChar(s[i])
  {
    seq(|s|, i requires 0 <= i < |s| => UpperChar(s[i]))
  }

  function Lower(s: string): (r: string)
    ensures |r| == |s| && forall i | 0 <= i < |s| :: r[i] == LowerChar(s[i])
  {
    seq(|s|, i requires 0 <= i < |s| => LowerChar(s[i]))
  }

  /** Python's `<=` on strings: lexicographic by code point. */
  predicate StrLe(a: string, b: string)
    decreases |a|
  {
    |a| == 0 || (|b| > 0 && (a[0] < b[0] || (a[0] == b[0] && StrLe(a[1..], b[1..]))))
  }

  lemma {:induction false} StrLeTotal(a: string, b: string)
    ensures StrLe(a, b) || StrLe(b, a)
    decreases |a|
  {
    if |a| > 0 && |b| > 0 && a[0] == b[0] { StrLeTotal(a[1..], b[1..]); }
  }

  lemma {:induction false} StrLeTrans(a: string, b: string, c: string)
    requires StrLe(a, b) && StrLe(b, c)
    ensures StrLe(a, c)
    decreases |a|
  {
    if |a| > 0 && a[0] == b[0] && b[0] == c[0] { StrLeTrans(a[1..], b[1..], c[1..]); }
  }

  /** .NET's `StringComparison.OrdinalIgnoreCase` equality over the modelled letters. */
  predicate EqualsIgnoreCase(a: string, b: string)
  {
    Upper(a) == Upper(b)
  }

  predicate IsDigit(c: char) { '0' <= c <= '9' }

  predicate AllDigits(s: string) { forall i | 0 <= i < |s| :: IsDigit(s[i]) }

  /** The value of a run of decimal digits, most significant first. */
  function DigitsValue(s: string): (n: nat)
    requires AllDigits(s)
    ensures |s| == 0 ==> n == 0
  {
    if |s| == 0 then 0 else DigitsValue(s[..|s| - 1]) * 10 + (s[|s| - 1] as int - '0' as int)
  }

  /** Python's `s.split(sep)` for a one-character separator. */
  function Split(s: string, sep: char): (parts: seq<string>)
    decreases |s|
    ensures |parts| >= 1
  {
    if |s| == 0 then [""]
    else
      var rest := Split(s[1..], sep);
      if s[0] == sep then [""] + rest else [[s[0]] + rest[0]] + rest[1..]
  }

  /** Python's `sep.join(parts)`. */
  function Join(parts: seq<string>, sep: string): string
  {
    if |parts| == 0 then ""
    else if |parts| == 1 then parts[0]
    else parts[0] + sep + Join(parts[1..], sep)
  }

  lemma {:induction false} SplitParts(s: string, sep: char)
    ensures forall p | p in Split(s, sep) :: sep !in p
    ensures Join(Split(s, sep), [sep]) == s
    decreases |s|
  {
    if |s| > 0 {
      SplitParts(s[1..], sep);
      var rest := Split(s[1..], sep);
      if s[0] == sep {
        assert Join([""] + rest, [sep]) == "" + [sep] + Join(rest, [sep]);
      } else {
        var parts := [[s[0]] + rest[0]] + rest[1..];
        assert rest[0] in rest;
        forall p | p in parts ensures sep !in p {
          if p != parts[0] { assert p in rest; }
        }
        if |rest| == 1 {
          assert Join(parts, [sep]) == [s[0]] + rest[0];
        } else {
          assert rest == [rest[0]] + rest[1..];
          assert Join(rest, [sep]) == rest[0] + [sep] + Join(rest[1..], [sep]);
          assert Join(parts, [sep]) == [s[0]] + rest[0] + [sep] + Join(rest[1..], [sep]);
        }
      }
    }
  }

  /** A text without the separator is one field. */
  lemma {:induction false} SplitDigits(s: string, sep: char)
    requires sep !in s
    ensures Split(s, sep) == [s]
    decreases |s|
  {
    if |s| > 0 {
      assert s[0] != sep;
      SplitDigits(s[1..], sep);
      assert [s[0]] + s[1..] == s;
    }
  }

  /** A separator-free text in front of another joins its first field. */
  lemma {:induction false} SplitPrefix(a: string, rest: string, sep: char)
    requires sep !in a
    ensures Split(a + rest, sep) == [a + Split(rest, sep)[0]] + Split(rest, sep)[1..]
    decreases |a|
  {
    if |a| > 0 {
      assert a[0] != sep;
      assert (a + rest)[1..] == a[1..] + rest;
      SplitPrefix(a[1..], rest, sep);
      assert [a[0]] + (a[1..] + Split(rest, sep)[0]) == a + Split(rest, sep)[0];
    } else {
      var parts := Split(rest, sep);
      assert a + rest == rest;
      assert a + parts[0] == parts[0];
      assert parts == [parts[0]] + parts[1..];
    }
  }

  /** A separator-free text and a separator in front of a text: that text is the first field. */
  lemma SplitLead(a: string, b: string, sep: char)
    requires sep !in a
    ensures Split(a + [sep] + b, sep) == [a] + Split(b, sep)
  {
    SplitPrefix(a, [sep] + b, sep);
    assert a + [sep] + b == a + ([sep] + b);
    assert ([sep] + b)[1..] == b;
    assert Split([sep] + b, sep) == [""] + Split(b, sep);
    assert a + "" == a;
  }

  /** Three separator-free fields around two separators split back into those fields. */
  lemma SplitThreeFields(a: string, b: string, c: string, sep: char)
    requires sep !in a && sep !in b && sep !in c
    ensures Split(a + [sep] + b + [sep] + c, sep) == [a, b, c]
  {
    var bc := b + [sep] + c;
    SplitLead(b, c, sep);
    SplitDigits(c, sep);
    assert Split(bc, sep) == [b, c];
    SplitLead(a, bc, sep);
    assert a + [sep] + b + [sep] + c == a + [sep] + bc;
  }

  /** Python's `s.replace(old, new)`: left-to-right, non-overlapping. */
  function ReplaceAll(s: string, pat: string, repl: string): string
    decreases |s|
  {
    if |s| == 0 then ""
    else if |pat| > 0 && pat <= s then repl + ReplaceAll(s[|pat|..], pat, repl)
    else [s[0]] + ReplaceAll(s[1..], pat, repl)
  }

  lemma {:induction false} ReplaceAllRemoves(s: string, c: char)
    ensures c !in ReplaceAll(s, [c], "")
    decreases |s|
  {
    if |s| > 0 { ReplaceAllRemoves(s[1..], c); }
  }

  /** Replace every occurrence of the character `a` with `b`. */
  function MapChar(s: string, a: char, b: char): (r: string)
    ensures |r| == |s|
    ensures forall i | 0 <= i < |s| :: r[i] == if s[i] == a then b else s[i]
  {
    seq(|s|, i requires 0 <= i < |s| => if s[i] == a then b else s[i])
  }

  /** The end of the run of characters satisfying `p` that starts at `i`. */
  function RunEnd(s: string, i: nat, p: char -> bool): (j: nat)
    requires i <= |s|
    decreases |s| - i
    ensures i <= j <= |s| && (forall k | i <= k < j :: p(s[k])) && (j < |s| ==> !p(s[j]))
  {
    if i == |s| || !p(s[i]) then i else RunEnd(s, i + 1, p)
  }

  /** The elements of `xs` satisfying `p`, in order: a comprehension with a condition. */
  function Filter<T>(xs: seq<T>, p: T -> bool): (r: seq<T>)
    ensures |r| <= |xs|
    ensures forall x | x in r :: x in xs && p(x)
  {
    if |xs| == 0 then []
    else
      var front, last := xs[..|xs| - 1], xs[|xs| - 1];
      var r := Filter(front, p);
      assert forall x | x in r :: x in xs by { assert xs == front + [last]; }
      r + if p(last) then [last] else []
  }

  /** Filtering loses no element that satisfies the condition. */
  lemma {:induction false} FilterComplete<T>(xs: seq<T>, p: T -> bool)
    ensures forall x | x in xs && p(x) :: x in Filter(xs, p)
  {
    if |xs| > 0 {
      var front := xs[..|xs| - 1];
      FilterComplete(front, p);
      assert xs == front + [xs[|xs| - 1]];
    }
  }

  /** A weaker condition keeps at least as many elements. */
  lemma {:induction false} FilterMono<T>(xs: seq<T>, p: T -> bool, q: T -> bool)
    requires forall x | x in xs && p(x) :: q(x)
    ensures |Filter(xs, p)| <= |Filter(xs, q)|
  {
    if |xs| > 0 {
      var front := xs[..|xs| - 1];
      assert xs == front + [xs[|xs| - 1]];
      FilterMono(front, p, q);
    }
  }

  /** Splitting the elements that satisfy `p` by another condition: the two parts add up. */
  lemma {:induction false} FilterPartition<T>(xs: seq<T>, p: T -> bool, yes: T -> bool, no: T -> bool)
    requires forall x | x in xs :: (yes(x) || no(x) <==> p(x)) && !(yes(x) && no(x))
    ensures |Filter(xs, yes)| + |Filter(xs, no)| == |Filter(xs, p)|
  {
    if |xs| > 0 {
      var front := xs[..|xs| - 1];
      assert xs == front + [xs[|xs| - 1]];
      FilterPartition(front, p, yes, no);
    }
  }

  /** Filtering by a condition every element meets keeps the whole sequence. */
  lemma {:induction false} FilterKeepsAll<T>(xs: seq<T>, p: T -> bool)
    requires forall x | x in xs :: p(x)
    ensures Filter(xs, p) == xs
  {
    if |xs| > 0 {
      var front, last := xs[..|xs| - 1], xs[|xs| - 1];
      assert xs == front + [last];
      assert forall x | x in front :: x in xs;
      FilterKeepsAll(front, p);
      assert p(last);
      assert Filter(xs, p) == Filter(front, p) + [last];
    }
  }

  lemma FilterSnoc<T>(xs: seq<T>, x: T, p: T -> bool)
    ensures Filter(xs + [x], p) == Filter(xs, p) + if p(x) then [x] else []
  {
    assert (xs + [x])[..|xs|] == xs;
  }

  /** Python's truthiness of an optional string: present and non-empty. */
  predicate Truthy(s: Option<string>) { s.Some? && s.value != "" }

  /** The present values of `f` over `xs`, in order: a loop that appends what parses and skips the rest. */
  function Collect<A, B>(xs: seq<A>, f: A -> Option<B>): seq<B>
  {
    if |xs| == 0 then []
    else
      var last := f(xs[|xs| - 1]);
      Collect(xs[..|xs| - 1], f) + if last.Some? then [last.value] else []
  }

  lemma CollectSnoc<A, B>(xs: seq<A>, x: A, f: A -> Option<B>)
    ensures Collect(xs + [x], f) == Collect(xs, f) + if f(x).Some? then [f(x).value] else []
  {
    assert (xs + [x])[..|xs|] == xs;
  }

  /** A loop that appends the present values of `f` over `xs`, in order. */
  method CollectPresent<A, B>(xs: seq<A>, f: A -> Option<B>) returns (r: seq<B>)
    ensures r == Collect(xs, f)
  {
    r := [];
    for i := 0 to |xs|
      invariant r == Collect(xs[..i], f)
    {
      CollectSnoc(xs[..i], xs[i], f);
      assert xs[..i + 1] == xs[..i] + [xs[i]];
      var y := f(xs[i]);
      if y.Some? {
        r := r + [y.value];
      }
    }
    assert xs[..|xs|] == xs;
  }

  /** The collected values are exactly the present values, at most one per input. */
  lemma {:induction false} CollectExactly<A, B>(xs: seq<A>, f: A -> Option<B>)
    ensures |Collect(xs, f)| <= |xs|
    ensures forall y :: y in Collect(xs, f) <==> exists i | 0 <= i < |xs| :: f(xs[i]) == Some(y)
  {
    if |xs| > 0 {
      var front := xs[..|xs| - 1];
      CollectExactly(front, f);
      forall y ensures y in Collect(xs, f) <==> exists i | 0 <= i < |xs| :: f(xs[i]) == Some(y) {
        if i :| 0 <= i < |xs| && f(xs[i]) == Some(y) {
          if i < |front| { assert front[i] == xs[i]; }
        }
        if y in Collect(front, f) {
          var i :| 0 <= i < |front| && f(front[i]) == Some(y);
          assert xs[i] == front[i];
        }
      }
    }
  }

  /** The concatenation of `f(x)` over `xs`, in order. */
  function Flatten<A, B>(xs: seq<A>, f: A -> seq<B>): seq<B>
  {
    if |xs| == 0 then [] else Flatten(xs[..|xs| - 1], f) + f(xs[|xs| - 1])
  }

  /** One more element of `xs` appends its part. */
  lemma FlattenStep<A, B>(xs: seq<A>, i: nat, f: A -> seq<B>)
    requires i < |xs|
    ensures Flatten(xs[..i + 1], f) == Flatten(xs[..i], f) + f(xs[i])
  {
    assert xs[..i + 1][..i] == xs[..i];
  }

  /** A value is in the concatenation iff it is in one of the parts. */
  lemma {:induction false} FlattenExactly<A, B>(xs: seq<A>, f: A -> seq<B>)
    ensures forall y :: y in Flatten(xs, f) <==> exists i | 0 <= i < |xs| :: y in f(xs[i])
  {
    if |xs| > 0 {
      var front := xs[..|xs| - 1];
      FlattenExactly(front, f);
      forall y ensures y in Flatten(xs, f) <==> exists i | 0 <= i < |xs| :: y in f(xs[i]) {
        if i :| 0 <= i < |xs| && y in f(xs[i]) {
          if i < |front| { assert front[i] == xs[i]; }
        }
        if y in Flatten(front, f) {
          var i :| 0 <= i < |front| && y in f(front[i]);
          assert xs[i] == front[i];
        }
      }
    }
  }

  /** The smallest element (Python's `min`). */
  function MinOf(s: seq<int>): (r: int)
    requires |s| > 0
    ensures r in s && forall k | 0 <= k < |s| :: r <= s[k]
  {
    if |s| == 1 then s[0]
    else
      var m := MinOf(s[..|s| - 1]);
      assert forall k | 0 <= k < |s| - 1 :: s[..|s| - 1][k] == s[k];
      if s[|s| - 1] < m then s[|s| - 1] else m
  }

  /** The largest element (Python's `max`). */
  function MaxOf(s: seq<int>): (r: int)
    requires |s| > 0
    ensures r in s && forall k | 0 <= k < |s| :: s[k] <= r
  {
    if |s| == 1 then s[0]
    else
      var m := MaxOf(s[..|s| - 1]);
      assert forall k | 0 <= k < |s| - 1 :: s[..|s| - 1][k] == s[k];
      if s[|s| - 1] > m then s[|s| - 1] else m
  }

  function Abs(x: int): nat { if x < 0 then -x else x }

  /** Division rounding toward zero, as Python's `int(a / b)` and C#'s `/` on integers. */
  function TruncDiv(a: int, b: int): (q: int)
    requires b != 0
    ensures a >= 0 && b > 0 ==> q == a / b
  {
    if (a >= 0) == (b > 0) then Abs(a) / Abs(b) else -(Abs(a) / Abs(b))
  }
}
