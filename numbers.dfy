// Python's `int()` and `float()` conversions of text, over plain decimal
// literals: surrounding whitespace, an optional sign, ASCII digits and, for
// `float()`, at most one decimal point. Values are exact (`real`), so two
// literals are equal exactly when they denote the same number.

module Numbers {
  import opened Text

  function Pow10(n: nat): (r: nat)
    ensures r >= 1
  {
    if n == 0 then 1 else 10 * Pow10(n - 1)
  }

  /** The text without surrounding whitespace when it has none to lose. */
  lemma StripUnchanged(s: string)
    requires |s| > 0 && !IsSpace(s[0]) && !IsSpace(s[|s| - 1])
    ensures Strip(s) == s
  {
    assert TrimStart(s) == s;
  }

  /** The optional leading sign of a literal: whether it is negative, and the rest. */
  function SignOf(t: string): (r: (bool, string))
    ensures |r.1| <= |t|
    ensures r.0 ==> |t| > 0 && t[0] == '-'
  {
    if |t| > 0 && (t[0] == '-' || t[0] == '+') then (t[0] == '-', t[1..]) else (false, t)
  }

  /** Python's `int(s)` for a decimal literal; `None` where it raises `ValueError`. */
  function ParseInt(s: string): Option<int>
  {
    var (neg, body) := SignOf(Strip(s));
    if |body| > 0 && AllDigits(body) then
      Some(if neg then -(DigitsValue(body) as int) else DigitsValue(body))
    else None
  }

  /** The number `whole.frac`. */
  function DecimalValue(whole: string, frac: string): real
    requires AllDigits(whole) && AllDigits(frac)
  {
    DigitsValue(whole) as real + DigitsValue(frac) as real / Pow10(|frac|) as real
  }

  /** Python's `float(s)` for a decimal literal such as `21.5`, `-3`, `.5` or `7.`. */
  function ParseFloat(s: string): Option<real>
  {
    var (neg, body) := SignOf(Strip(s));
    UnsignedDecimal(body, neg)
  }

  /** The value of the unsigned part of a literal: digits around at most one point, at least one digit. */
  function UnsignedDecimal(body: string, neg: bool): Option<real>
  {
    var point := Find(body, ".");
    var whole := if point.Some? then body[..point.value] else body;
    var frac := if point.Some? then body[point.value + 1..] else "";
    if |whole| + |frac| > 0 && AllDigits(whole) && AllDigits(frac) then
      var v := DecimalValue(whole, frac);
      Some(if neg then -v else v)
    else None
  }

  /** Python's `int(x)` of a float: truncation toward zero. */
  function Truncate(x: real): (r: int)
    ensures x >= 0.0 ==> r as real <= x < r as real + 1.0
    ensures x < 0.0 ==> r as real - 1.0 < x <= r as real
  {
    if x >= 0.0 then x.Floor else -((-x).Floor)
  }

  /** The decimal digits of `n`, without leading zeros (Python's `str(n)`). */
  function NatString(n: nat): (r: string)
    ensures |r| > 0 && AllDigits(r) && DigitsValue(r) == n
    ensures r[0] != '0' || n == 0
    ensures n < 10 ==> |r| == 1
    ensures 10 <= n < 100 ==> |r| == 2
  {
    var d := [(n % 10 + '0' as int) as char];
    if n < 10 then d
    else
      var front := NatString(n / 10);
      assert (front + d)[..|front|] == front;
      front + d
  }

  function IntString(n: int): (r: string)
  {
    if n < 0 then "-" + NatString(-n) else NatString(n)
  }

  /** `int(str(n)) == n`. */
  lemma ParseIntRoundTrip(n: int)
    ensures ParseInt(IntString(n)) == Some(n)
  {
    var s := IntString(n);
    StripUnchanged(s);
    if n < 0 {
      assert SignOf(s).1 == NatString(-n);
    }
  }

  /** `float(str(n)) == n` for an integer literal. */
  lemma ParseFloatOfInt(n: int)
    ensures ParseFloat(IntString(n)) == Some(n as real)
  {
    var a: nat := if n < 0 then -n else n;
    var body := NatString(a);
    assert IntString(n) == (if n < 0 then "-" else "") + body;
    ParseFloatOfDigits(body, n < 0);
    assert (if n < 0 then -(a as real) else a as real) == n as real;
  }

  /** A run of digits, with or without a minus sign, is read as that whole number. */
  lemma ParseFloatOfDigits(body: string, neg: bool)
    requires |body| > 0 && AllDigits(body)
    ensures ParseFloat((if neg then "-" else "") + body)
         == Some(if neg then -(DigitsValue(body) as real) else DigitsValue(body) as real)
  {
    DigitsBody(body);
    BodyParts(body, neg);
    UnsignedWhole(body, neg);
  }

  lemma DigitsBody(body: string)
    requires |body| > 0 && AllDigits(body)
    ensures !IsSpace(body[|body| - 1]) && IsDigit(body[0])
  {
    var c := body[|body| - 1];
    assert '0' <= c <= '9';
  }

  /** A run of digits is read as a whole number. */
  lemma UnsignedWhole(body: string, neg: bool)
    requires |body| > 0 && AllDigits(body)
    ensures UnsignedDecimal(body, neg)
         == Some(if neg then -(DigitsValue(body) as real) else DigitsValue(body) as real)
  {
    NoPoint(body);
    assert DigitsValue("") == 0;
  }

  /** `float("w.f")` is the decimal number `w.f`, and `float("-w.f")` its negation. */
  lemma ParseFloatDecimal(whole: string, frac: string)
    requires AllDigits(whole) && AllDigits(frac) && |whole| + |frac| > 0
    ensures ParseFloat(whole + "." + frac) == Some(DecimalValue(whole, frac))
    ensures ParseFloat("-" + (whole + "." + frac)) == Some(-DecimalValue(whole, frac))
  {
    var body := whole + "." + frac;
    assert body[|body| - 1] == if |frac| > 0 then frac[|frac| - 1] else '.';
    assert body[0] == if |whole| > 0 then whole[0] else '.';
    UnsignedParts(whole, frac, false);
    UnsignedParts(whole, frac, true);
    BodyParts(body, false);
    BodyParts(body, true);
    assert "" + body == body;
  }

  lemma UnsignedParts(whole: string, frac: string, neg: bool)
    requires AllDigits(whole) && AllDigits(frac) && |whole| + |frac| > 0
    ensures UnsignedDecimal(whole + "." + frac, neg)
         == Some(if neg then -DecimalValue(whole, frac) else DecimalValue(whole, frac))
  {
    var body := whole + "." + frac;
    FindFirst(body, whole);
    assert body[..|whole|] == whole;
    assert body[|whole| + 1..] == frac;
  }

  /** A literal without surrounding whitespace is read as its sign and its body. */
  lemma BodyParts(body: string, neg: bool)
    requires |body| > 0 && !IsSpace(body[|body| - 1]) && (IsDigit(body[0]) || body[0] == '.')
    ensures ParseFloat((if neg then "-" else "") + body) == UnsignedDecimal(body, neg)
  {
    var s := (if neg then "-" else "") + body;
    assert s[|s| - 1] == body[|body| - 1];
    StripUnchanged(s);
    if neg { assert s[1..] == body; }
    assert SignOf(Strip(s)) == (neg, body);
  }

  /** The first point of `w + "." + f` with `w` all digits is the one after `w`. */
  lemma {:induction false} FindFirst(body: string, whole: string)
    requires whole <= body && |body| > |whole| && body[|whole|] == '.' && AllDigits(whole)
    ensures Find(body, ".") == Some(|whole|)
    decreases |whole|
  {
    if |whole| > 0 {
      assert body[0] == whole[0];
      assert !("." <= body);
      FindFirst(body[1..], whole[1..]);
    } else {
      assert "." <= body;
    }
  }

  /** A run of digits has no decimal point. */
  lemma {:induction false} NoPoint(s: string)
    requires AllDigits(s)
    ensures Find(s, ".") == None
    decreases |s|
  {
    if |s| > 0 {
      assert IsDigit(s[0]);
      assert !("." <= s);
      NoPoint(s[1..]);
    }
  }
}
