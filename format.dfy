/** The pieces of C's printf and scanf that the three data files use:
    %d and %.2f on output; %d, %f, %N[^c], literal characters and a
    whitespace directive on input. The input functions consume a prefix of
    the remaining text and return what is left, as a FILE cursor would. */
module Format {

  datatype Option<T> = None | Some(value: T) {
    predicate IsFailure() { None? }
    function PropagateFailure<U>(): Option<U>
      requires None?
    {
      None
    }
    function Extract(): T
      requires Some?
    {
      value
    }
  }

  predicate IsDigit(c: char) { '0' <= c <= '9' }

  /** isspace in the "C" locale. */
  predicate IsSpace(c: char) {
    c == ' ' || c == '\t' || c == '\n' || c == '\r' || c == '\U{0B}' || c == '\U{0C}'
  }

  predicate AllDigits(s: string) {
    forall k :: 0 <= k < |s| ==> IsDigit(s[k])
  }

  /** True when the text does not begin with whitespace, so that a
      whitespace directive in front of it consumes nothing. */
  predicate StartsClean(s: string) {
    |s| == 0 || !IsSpace(s[0])
  }

  /** strncpy into a buffer of width + 1 bytes followed by the terminator
      write: the first `width` characters survive. */
  function Truncate(s: string, width: nat): (r: string)
    ensures r <= s
    ensures |r| == if |s| <= width then |s| else width
  {
    if |s| <= width then s else s[..width]
  }

  /** A C string holds no NUL character: the first NUL would end it. */
  predicate CString(s: string) {
    '\0' !in s
  }

  /** strcmp: compares character by character, the end of the shorter
      string counting as a NUL below every character. */
  function StrCmp(a: string, b: string): (r: int)
    requires CString(a) && CString(b)
    ensures r == 0 <==> a == b
  {
    if |a| == 0 && |b| == 0 then 0
    else if |a| == 0 then -(b[0] as int)
    else if |b| == 0 then a[0] as int
    else if a[0] != b[0] then a[0] as int - b[0] as int
    else
      var r := StrCmp(a[1..], b[1..]);
      assert a == [a[0]] + a[1..] && b == [b[0]] + b[1..];
      r
  }

  /** Concatenation regrouped to the right. */
  lemma Regroup(p: string, q: string, x: string)
    ensures (p + q) + x == p + (q + x)
  {
  }

  function Digit(d: nat): (c: char)
    requires d < 10
    ensures IsDigit(c)
  {
    "0123456789"[d]
  }

  function DigitValue(c: char): (d: nat)
    requires IsDigit(c)
    ensures d < 10
  {
    c as int - '0' as int
  }

  lemma {:induction false} DigitRoundTrip(d: nat)
    requires d < 10
    ensures DigitValue(Digit(d)) == d
  {
  }

  // ---------------------------------------------------------------- output

  /** printf("%d") of a non-negative value. */
  function NatToString(n: nat): (r: string)
    ensures |r| > 0 && AllDigits(r)
  {
    if n < 10 then [Digit(n)] else NatToString(n / 10) + [Digit(n % 10)]
  }

  /** printf("%d"). */
  function IntToString(x: int): (r: string)
    ensures |r| > 0 && (IsDigit(r[0]) || r[0] == '-')
  {
    SignText(x < 0) + NatToString(if x < 0 then -x else x)
  }

  /** printf("%.2f") of a price held as a whole number of cents. */
  function FormatCents(c: int): (r: string)
    ensures |r| > 0 && (IsDigit(r[0]) || r[0] == '-')
  {
    SignText(c < 0) + UnsignedCents(if c < 0 then -c else c)
  }

  // ----------------------------------------------------------------- input

  /** A whitespace directive: skips any amount of whitespace, none included. */
  function SkipSpace(s: string): (r: string)
    ensures |r| <= |s|
  {
    if |s| > 0 && IsSpace(s[0]) then SkipSpace(s[1..]) else s
  }

  /** Length of the longest prefix made of digits. */
  function DigitSpan(s: string): (n: nat)
    ensures n <= |s|
    ensures forall k :: 0 <= k < n ==> IsDigit(s[k])
  {
    if |s| > 0 && IsDigit(s[0]) then 1 + DigitSpan(s[1..]) else 0
  }

  /** The decimal value of a digit string, read left to right. */
  function DigitsValue(ds: string): nat
    requires AllDigits(ds)
  {
    if |ds| == 0 then 0 else DigitsValue(ds[..|ds| - 1]) * 10 + DigitValue(ds[|ds| - 1])
  }

  /** An optional sign in front of a number: (is it negative, the rest). */
  function SplitSign(s: string): (bool, string) {
    if |s| > 0 && (s[0] == '-' || s[0] == '+') then (s[0] == '-', s[1..]) else (false, s)
  }

  /** A literal character of the format: it must be the next input character. */
  function Expect(s: string, c: char): Option<string> {
    if |s| > 0 && s[0] == c then Some(s[1..]) else None
  }

  /** scanf("%d"): skips whitespace, then an optional sign and at least one digit. */
  function ScanInt(s: string): Option<(int, string)> {
    var t := SkipSpace(s);
    var (negative, u) := SplitSign(t);
    var n := DigitSpan(u);
    if n == 0 then None
    else
      var v: int := DigitsValue(u[..n]);
      Some((if negative then -v else v, u[n..]))
  }

  /** Number of characters, at most `width`, before the first `stop`. */
  function SpanUntil(s: string, stop: char, width: nat): (n: nat)
    ensures n <= |s|
  {
    if width == 0 || |s| == 0 || s[0] == stop then 0 else 1 + SpanUntil(s[1..], stop, width - 1)
  }

  /** scanf("%<width>[^<stop>]"): no whitespace skipping, and an empty match fails. */
  function ScanSet(s: string, stop: char, width: nat): Option<(string, string)> {
    var n := SpanUntil(s, stop, width);
    if n == 0 then None else Some((s[..n], s[n..]))
  }

  /** The cents in the first two fraction digits; later ones are dropped. */
  function FractionCents(f: string): nat
    requires AllDigits(f)
  {
    (if |f| > 0 then DigitValue(f[0]) * 10 else 0) + (if |f| > 1 then DigitValue(f[1]) else 0)
  }

  /** The fraction part after a decimal point: its digits and what follows. */
  function SplitFraction(v: string): (r: (string, string))
    ensures AllDigits(r.0)
  {
    if |v| > 0 && v[0] == '.' then
      var b := DigitSpan(v[1..]);
      (v[1..][..b], v[1..][b..])
    else ("", v)
  }

  /** scanf("%f") of a price, restricted to the form [sign]digits[.digits]
      and converted to cents. */
  function ScanCents(s: string): Option<(int, string)> {
    var t := SkipSpace(s);
    var (negative, u) := SplitSign(t);
    var (m, rest) :- ScanUnsignedCents(u);
    Some((if negative then -m else m, rest))
  }

  /** The digits of a price after its sign. */
  function ScanUnsignedCents(u: string): Option<(int, string)> {
    var a := DigitSpan(u);
    var (frac, rest) := SplitFraction(u[a..]);
    if a + |frac| == 0 then None
    else Some((DigitsValue(u[..a]) * 100 + FractionCents(frac), rest))
  }

  // -------------------------------------------------------- round trips

  lemma {:induction false} DigitsValueOfNatToString(n: nat)
    ensures DigitsValue(NatToString(n)) == n
  {
    var r := NatToString(n);
    if n < 10 {
      DigitRoundTrip(n);
    } else {
      DigitsValueOfNatToString(n / 10);
      assert r[..|r| - 1] == NatToString(n / 10);
      DigitRoundTrip(n % 10);
    }
  }

  lemma {:induction false} DigitSpanOfDigits(d: string, t: string)
    requires AllDigits(d)
    requires |t| == 0 || !IsDigit(t[0])
    ensures DigitSpan(d + t) == |d|
  {
    if |d| > 0 {
      assert (d + t)[1..] == d[1..] + t;
      DigitSpanOfDigits(d[1..], t);
    } else {
      assert d + t == t;
    }
  }

  lemma {:induction false} SkipSpaceOfClean(s: string)
    requires StartsClean(s)
    ensures SkipSpace(s) == s
  {
  }

  /** A literal character of the format matches itself and nothing more. */
  lemma {:induction false} ExpectLiteral(c: char, s: string)
    ensures Expect([c] + s, c) == Some(s)
  {
    assert ([c] + s)[0] == c && ([c] + s)[1..] == s;
  }

  /** The whitespace directive at the end of a record consumes the line
      break and nothing of the next line. */
  lemma {:induction false} SkipLineEnd(t: string)
    requires StartsClean(t)
    ensures SkipSpace("\n" + t) == t
  {
    var s := "\n" + t;
    assert |s| > 0 && IsSpace(s[0]) && s[1..] == t;
    assert SkipSpace(s) == SkipSpace(t);
    SkipSpaceOfClean(t);
  }

  /** Reading back what printf("%d") wrote gives the same value, provided
      no digit follows. */
  lemma {:induction false} ScanIntOfIntToString(x: int, t: string)
    requires |t| == 0 || !IsDigit(t[0])
    ensures ScanInt(IntToString(x) + t) == Some((x, t))
  {
    var m := if x < 0 then -x else x;
    ScanSignedDigits(x < 0, NatToString(m), t);
    DigitsValueOfNatToString(m);
  }

  /** The sign prefix IntToString and FormatCents write. */
  function SignText(negative: bool): string {
    if negative then "-" else ""
  }

  lemma {:induction false} ScanSignedDigits(negative: bool, d: string, t: string)
    requires |d| > 0 && AllDigits(d)
    requires |t| == 0 || !IsDigit(t[0])
    ensures ScanInt(SignText(negative) + d + t) == Some((if negative then -(DigitsValue(d) as int) else DigitsValue(d), t))
  {
    var u := d + t;
    var s := SignText(negative) + d + t;
    assert s == SignText(negative) + u;
    SplitSignOf(negative, u);
    SkipSpaceOfClean(s);
    DigitSpanOfDigits(d, t);
    assert u[..|d|] == d;
    assert u[|d|..] == t;
  }

  lemma {:induction false} SplitSignOf(negative: bool, u: string)
    requires |u| > 0 && IsDigit(u[0])
    ensures StartsClean(SignText(negative) + u)
    ensures SplitSign(SignText(negative) + u) == (negative, u)
  {
    if negative {
      assert (SignText(negative) + u)[1..] == u;
    } else {
      assert SignText(negative) + u == u;
    }
  }

  /** Reading back what printf("%.2f") wrote gives the same number of
      cents, provided no digit follows. */
  lemma {:induction false} ScanCentsOfFormatCents(c: int, t: string)
    requires |t| == 0 || !IsDigit(t[0])
    ensures ScanCents(FormatCents(c) + t) == Some((c, t))
  {
    var m := if c < 0 then -c else c;
    var u := UnsignedCents(m) + t;
    var s := FormatCents(c) + t;
    assert s == SignText(c < 0) + u;
    SplitSignOf(c < 0, u);
    SkipSpaceOfClean(s);
    ScanUnsignedCentsOfFormat(m, t);
    ScanCentsOfParts(s, c < 0, u, m, t);
  }

  /** `%f` on a price is its sign followed by its unsigned amount. */
  lemma {:induction false} ScanCentsOfParts(s: string, negative: bool, u: string, m: int, t: string)
    requires SkipSpace(s) == s && SplitSign(s) == (negative, u) && ScanUnsignedCents(u) == Some((m, t))
    ensures ScanCents(s) == Some((if negative then -m else m, t))
  {
  }

  lemma {:induction false} ScanUnsignedCentsOfFormat(m: nat, t: string)
    requires |t| == 0 || !IsDigit(t[0])
    ensures ScanUnsignedCents(UnsignedCents(m) + t) == Some((m, t))
  {
    CentsDigits(m);
    var whole := NatToString(m / 100);
    ScanDigitsAndFraction(whole, m % 100 / 10, m % 10, t);
    DigitsValueOfNatToString(m / 100);
  }

  lemma {:induction false} ScanDigitsAndFraction(whole: string, d1: nat, d2: nat, t: string)
    requires AllDigits(whole) && d1 < 10 && d2 < 10
    requires |t| == 0 || !IsDigit(t[0])
    ensures ScanUnsignedCents(whole + "." + [Digit(d1), Digit(d2)] + t)
         == Some((DigitsValue(whole) * 100 + d1 * 10 + d2, t))
  {
    var frac := [Digit(d1), Digit(d2)];
    var u := whole + "." + frac + t;
    assert u == whole + ("." + frac + t);
    ScanPrice(whole, frac, t);
    assert u[..|whole|] == whole;
    assert u[|whole|..] == "." + frac + t;
    DigitRoundTrip(d1);
    DigitRoundTrip(d2);
  }

  /** FormatCents without its sign. */
  function UnsignedCents(m: nat): string {
    NatToString(m / 100) + "." + [Digit(m % 100 / 10), Digit(m % 10)]
  }

  lemma {:induction false} ScanPrice(whole: string, frac: string, t: string)
    requires AllDigits(whole) && AllDigits(frac) && |frac| == 2
    requires |t| == 0 || !IsDigit(t[0])
    ensures DigitSpan(whole + ("." + frac + t)) == |whole|
    ensures SplitFraction("." + frac + t) == (frac, t)
  {
    DigitSpanOfDigits(whole, "." + frac + t);
    var v := "." + frac + t;
    assert v[1..] == frac + t;
    DigitSpanOfDigits(frac, t);
    assert v[1..][..2] == frac;
    assert v[1..][2..] == t;
  }

  lemma {:induction false} CentsDigits(m: nat)
    ensures m / 100 * 100 + m % 100 / 10 * 10 + m % 10 == m
    ensures m % 100 / 10 < 10
  {
    var q, r := m / 100, m % 100;
    var a, b := r / 10, r % 10;
    assert m == (q * 10 + a) * 10 + b;
  }

  /** A field free of the stop character and within the width is read
      back whole, leaving the stop character in the input. */
  lemma {:induction false} ScanSetOfField(f: string, stop: char, width: nat, t: string)
    requires 0 < |f| <= width && stop !in f
    ensures ScanSet(f + [stop] + t, stop, width) == Some((f, [stop] + t))
  {
    SpanUntilOfField(f, stop, width, t);
    var s := f + [stop] + t;
    assert s[..|f|] == f;
    assert s[|f|..] == [stop] + t;
  }

  lemma {:induction false} SpanUntilOfField(f: string, stop: char, width: nat, t: string)
    requires |f| <= width && stop !in f
    ensures SpanUntil(f + [stop] + t, stop, width) == |f|
  {
    if |f| > 0 {
      assert (f + [stop] + t)[1..] == f[1..] + [stop] + t;
      SpanUntilOfField(f[1..], stop, width - 1, t);
    } else {
      assert f + [stop] + t == [stop] + t;
    }
  }

  /** The scan never reads past a stop character. */
  lemma {:induction false} SpanUntilStopsAt(s: string, stop: char, width: nat, j: nat)
    requires j < |s| && s[j] == stop
    ensures SpanUntil(s, stop, width) <= j
  {
    if j > 0 && width > 0 && s[0] != stop {
      SpanUntilStopsAt(s[1..], stop, width - 1, j - 1);
    }
  }

  /** The scan stops within the width and before any stop character. */
  lemma {:induction false} SpanUntilAvoids(s: string, stop: char, width: nat)
    ensures SpanUntil(s, stop, width) <= width
    ensures stop !in s[..SpanUntil(s, stop, width)]
  {
    if width > 0 && |s| > 0 && s[0] != stop {
      SpanUntilAvoids(s[1..], stop, width - 1);
      var n := SpanUntil(s[1..], stop, width - 1);
      assert s[..n + 1] == [s[0]] + s[1..][..n];
    }
  }

  /** Whatever a `%N[^c]` directive reads is 1 to N characters, none of
      them the stop character. */
  lemma {:induction false} ScanSetIsField(s: string, stop: char, width: nat)
    requires ScanSet(s, stop, width).Some?
    ensures 0 < |ScanSet(s, stop, width).value.0| <= width
    ensures stop !in ScanSet(s, stop, width).value.0
  {
    SpanUntilAvoids(s, stop, width);
  }

  /** An empty field is a matching failure for %[...]. */
  lemma {:induction false} ScanSetOfEmptyField(stop: char, width: nat, t: string)
    ensures ScanSet([stop] + t, stop, width).None?
  {
  }
}
