/**
 * Spans and their text form (`Regex.parse_span`).
 *
 * A match reports its span as the text `"(a, b)"`, built with `str()` on two
 * integers. `parse_span` reads such a text back (`split(", ")`, `strip("()")`,
 * `int()`), adds an offset to both bounds and renders the result again.
 */
module Spans {
  import opened Wrappers

  /** A half-open interval `[start, end)` of positions in a subject. */
  datatype Span = Span(start: int, end: int)

  /** Both bounds moved by `offset`; the width of the span is kept. */
  function Shift(sp: Span, offset: int): (r: Span)
    ensures r.end - r.start == sp.end - sp.start
  {
    Span(sp.start + offset, sp.end + offset)
  }

  // ---------------------------------------------------------------------------
  // Decimal text of integers: `str(n)` and `int(t)`.

  predicate IsDigit(ch: char) {
    '0' <= ch <= '9'
  }

  predicate AllDigits(t: string) {
    forall k :: 0 <= k < |t| ==> IsDigit(t[k])
  }

  function DigitChar(d: nat): (ch: char)
    requires d < 10
    ensures IsDigit(ch) && ch as int - '0' as int == d
  {
    ('0' as int + d) as char
  }

  /** `str(n)` for a non-negative `n`: decimal digits without leading zeros. */
  function NatToDecimal(n: nat): (t: string)
    ensures |t| > 0 && AllDigits(t)
    decreases n
  {
    if n < 10 then [DigitChar(n)] else NatToDecimal(n / 10) + [DigitChar(n % 10)]
  }

  /** `str(n)`: a minus sign before the digits of a negative number. */
  function IntToDecimal(n: int): (t: string)
    ensures |t| > 0 && (t[0] == '-' <==> n < 0)
  {
    if n < 0 then "-" + NatToDecimal(-n) else NatToDecimal(n)
  }

  /** The value of a string of decimal digits (leading zeros allowed, as `int()` allows them). */
  function DecimalValue(t: string): nat
    requires AllDigits(t)
    decreases |t|
  {
    if t == [] then 0 else DecimalValue(t[..|t| - 1]) * 10 + (t[|t| - 1] as int - '0' as int)
  }

  /** `int(t)` on an optional minus sign followed by at least one digit; anything else raises. */
  function ParseInt(t: string): (r: Option<int>)
    ensures r.Some? ==> |t| > 0
    ensures r.Some? && r.value < 0 ==> t[0] == '-'
  {
    if |t| > 1 && t[0] == '-' && AllDigits(t[1..]) then Some(-(DecimalValue(t[1..]) as int))
    else if |t| > 0 && AllDigits(t) then Some(DecimalValue(t))
    else None
  }

  lemma {:induction false} DecimalRoundTrip(n: nat)
    ensures DecimalValue(NatToDecimal(n)) == n
    decreases n
  {
    if n >= 10 {
      var t := NatToDecimal(n);
      assert t[..|t| - 1] == NatToDecimal(n / 10);
      DecimalRoundTrip(n / 10);
    }
  }

  /** `int(str(n)) == n`. */
  lemma IntRoundTrip(n: int)
    ensures ParseInt(IntToDecimal(n)) == Some(n)
  {
    var t := IntToDecimal(n);
    if n < 0 {
      assert t[1..] == NatToDecimal(-n);
      DecimalRoundTrip(-n);
    } else {
      DecimalRoundTrip(n);
    }
  }

  // ---------------------------------------------------------------------------
  // `split(", ")` and `strip("()")`.

  predicate IsSeparatorAt(t: string, k: int) {
    0 <= k && k + 1 < |t| && t[k] == ',' && t[k + 1] == ' '
  }

  /** The first index at or after `j` where `", "` starts, or `|t|` when there is none. */
  function SeparatorFrom(t: string, j: nat): (k: nat)
    requires j <= |t|
    ensures j <= k <= |t|
    ensures k < |t| ==> IsSeparatorAt(t, k)
    ensures forall m :: j <= m < k ==> !IsSeparatorAt(t, m)
    decreases |t| - j
  {
    if j + 1 >= |t| then |t|
    else if t[j] == ',' && t[j + 1] == ' ' then j
    else SeparatorFrom(t, j + 1)
  }

  /** `t.split(", ")`. */
  function Split(t: string): (parts: seq<string>)
    ensures |parts| >= 1
    decreases |t|
  {
    var k := SeparatorFrom(t, 0);
    if k == |t| then [t] else [t[..k]] + Split(t[k + 2..])
  }

  predicate IsParen(ch: char) {
    ch == '(' || ch == ')'
  }

  /** `t.lstrip("()")`: the longest suffix of `t` that does not start with a parenthesis. */
  function StripLeft(t: string): (r: string)
    ensures |r| <= |t| && r == t[|t| - |r|..]
    ensures |r| > 0 ==> !IsParen(r[0])
    ensures (|t| == 0 || !IsParen(t[0])) ==> r == t
    decreases |t|
  {
    if |t| > 0 && IsParen(t[0]) then StripLeft(t[1..]) else t
  }

  /** `t.rstrip("()")`: the longest prefix of `t` that does not end with a parenthesis. */
  function StripRight(t: string): (r: string)
    ensures |r| <= |t| && r == t[..|r|]
    ensures |r| > 0 ==> !IsParen(r[|r| - 1])
    ensures (|t| == 0 || !IsParen(t[|t| - 1])) ==> r == t
    decreases |t|
  {
    if |t| > 0 && IsParen(t[|t| - 1]) then StripRight(t[..|t| - 1]) else t
  }

  /** `t.strip("()")`. */
  function Strip(t: string): (r: string)
    ensures |r| <= |t|
    ensures |r| > 0 ==> !IsParen(r[0]) && !IsParen(r[|r| - 1])
    ensures (|t| == 0 || (!IsParen(t[0]) && !IsParen(t[|t| - 1]))) ==> r == t
  {
    StripRight(StripLeft(t))
  }

  // ---------------------------------------------------------------------------
  // The span text.

  /** `"(" + str(a) + ", " + str(b) + ")"`. */
  function Render(sp: Span): (t: string)
    ensures |t| >= 6 && t[0] == '(' && t[|t| - 1] == ')'
  {
    "(" + IntToDecimal(sp.start) + ", " + IntToDecimal(sp.end) + ")"
  }

  /** The two integers `parse_span` reads from a span text, or None where it would raise. */
  function ReadSpan(t: string): Option<Span> {
    var parts := Split(t);
    if |parts| < 2 then None
    else
      match (ParseInt(Strip(parts[0])), ParseInt(Strip(parts[1])))
      case (Some(a), Some(b)) => Some(Span(a, b))
      case _ => None
  }

  /**
   * `parse_span(t, offset)`: the span read from `t`, moved by `offset`, as text.
   * The result reads back as exactly that moved span.
   */
  function ParseSpan(t: string, offset: int): (r: string)
    requires ReadSpan(t).Some?
    ensures ReadSpan(r) == Some(Shift(ReadSpan(t).value, offset))
  {
    var sp := ReadSpan(t).value;
    ReadRender(Shift(sp, offset));
    Render(Shift(sp, offset))
  }

  /** Text without `,` or parentheses, as the text of an integer is. */
  predicate Bare(t: string) {
    |t| > 0 && forall k :: 0 <= k < |t| ==> t[k] != ',' && !IsParen(t[k])
  }

  /** The text of an integer is non-empty and holds no `,` and no parenthesis. */
  lemma IntTextIsBare(n: int)
    ensures Bare(IntToDecimal(n))
  {
    var d := NatToDecimal(if n < 0 then -n else n);
    assert forall k :: 0 <= k < |d| ==> IsDigit(d[k]);
  }

  /** `"(" + a + ", " + b + ")"` splits at its one separator. */
  lemma SplitRendered(a: string, b: string)
    requires Bare(a) && Bare(b)
    ensures Split("(" + a + ", " + b + ")") == ["(" + a, b + ")"]
  {
    var left, right := "(" + a, b + ")";
    var t := left + ", " + right;
    assert t == "(" + a + ", " + b + ")";
    assert IsSeparatorAt(t, |left|);
    assert forall m :: 0 <= m < |left| ==> t[m] == left[m];
    assert SeparatorFrom(t, 0) == |left|;
    assert t[..|left|] == left;
    assert t[|left| + 2..] == right;
    assert forall m :: 0 <= m < |right| - 1 ==> right[m] == b[m];
    assert SeparatorFrom(right, 0) == |right|;
  }

  /** Stripping parentheses from `"(" + a` and from `b + ")"` leaves `a` and `b`. */
  lemma StripRendered(a: string, b: string)
    requires Bare(a) && Bare(b)
    ensures Strip("(" + a) == a && Strip(b + ")") == b
  {
    var l, r := "(" + a, b + ")";
    assert !IsParen(a[0]) && !IsParen(a[|a| - 1]) && !IsParen(b[0]) && !IsParen(b[|b| - 1]);
    // The opening parenthesis goes; `a` has none at either end.
    assert l[1..] == a;
    assert StripLeft(l) == StripLeft(a) == a;
    assert StripRight(a) == a;
    // The closing parenthesis goes; `b` has none at either end.
    assert r[0] == b[0];
    assert StripLeft(r) == r;
    assert r[..|b|] == b;
    assert StripRight(r) == StripRight(b) == b;
  }

  /** Reading a rendered span gives the span back. */
  lemma ReadRender(sp: Span)
    ensures ReadSpan(Render(sp)) == Some(sp)
  {
    var a, b := IntToDecimal(sp.start), IntToDecimal(sp.end);
    IntTextIsBare(sp.start);
    IntTextIsBare(sp.end);
    SplitRendered(a, b);
    StripRendered(a, b);
    IntRoundTrip(sp.start);
    IntRoundTrip(sp.end);
  }

  /** Rendering is injective, so comparing span texts is comparing spans. */
  lemma RenderInjective(x: Span, y: Span)
    ensures Render(x) == Render(y) <==> x == y
  {
    ReadRender(x);
    ReadRender(y);
  }

  /** `parse_span(str_span, offset)` renders the shifted span. */
  lemma ParseSpanRendered(sp: Span, offset: int)
    ensures ReadSpan(Render(sp)).Some?
    ensures ParseSpan(Render(sp), offset) == Render(Shift(sp, offset))
  {
    ReadRender(sp);
  }

  /** A zero offset gives a rendered span back unchanged. */
  lemma ParseSpanZero(sp: Span)
    ensures ReadSpan(Render(sp)).Some?
    ensures ParseSpan(Render(sp), 0) == Render(sp)
  {
    ParseSpanRendered(sp, 0);
    assert Shift(sp, 0) == sp;
  }

  /** Shifting by `a` and then by `b` is shifting by `a + b`. */
  lemma ParseSpanCompose(t: string, a: int, b: int)
    requires ReadSpan(t).Some?
    ensures ReadSpan(ParseSpan(t, a)).Some?
    ensures ParseSpan(ParseSpan(t, a), b) == ParseSpan(t, a + b)
  {
    var sp := ReadSpan(t).value;
    assert Shift(Shift(sp, a), b) == Shift(sp, a + b);
  }
}
