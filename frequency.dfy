/**
 * The frequency column of a bookmark row: a decimal number of megahertz, written with
 * either ',' or '.' as decimal separator, turned into a whole number of hertz by
 * `int(float(freq.replace(",", ".")) * 1000000)` (main.py:35).
 *
 * The parse is exact decimal arithmetic over the grammar
 *     [ '+' | '-' ] digits [ '.' digits ]     with at least one digit in all,
 * which covers every plain decimal that `float` accepts ("7", "7.", ".5", "-0.25").
 * The multiplication by one million is exact and `int()` truncates toward zero.
 */
module Frequency {
  import opened Wrappers
  import opened Digits

  /** An exact decimal number num / 10^scale, where scale is the number of fraction digits written. */
  datatype Decimal = Decimal(num: int, scale: nat)

  const HertzPerMegahertz: nat := 1000000

  // ---------------------------------------------------------------------------
  // The comma-to-period substitution, str.replace(",", ".")
  // ---------------------------------------------------------------------------

  function ReplaceCommas(s: string): (r: string)
    ensures |r| == |s|
    ensures forall i :: 0 <= i < |s| && s[i] != ',' ==> r[i] == s[i]
    ensures forall i :: 0 <= i < |s| && s[i] == ',' ==> r[i] == '.'
  {
    if s == [] then [] else [if s[0] == ',' then '.' else s[0]] + ReplaceCommas(s[1..])
  }

  // ---------------------------------------------------------------------------
  // The grammar, stated by counting characters
  // ---------------------------------------------------------------------------

  /** The number of occurrences of c in s. */
  function Count(s: string, c: char): (n: nat)
    ensures n <= |s|
  {
    if s == [] then 0 else (if s[0] == c then 1 else 0) + Count(s[1..], c)
  }

  predicate DigitsAndDots(s: string) { forall i :: 0 <= i < |s| ==> s[i] == '.' || IsDigit(s[i]) }

  predicate IsSign(c: char) { c == '+' || c == '-' }

  /** What follows an optional leading sign. */
  function Unsigned(s: string): (body: string)
    ensures |body| <= |s|
  {
    if |s| > 0 && IsSign(s[0]) then s[1..] else s
  }

  /**
   * The strings the frequency parse accepts, stated without reference to the parser:
   * after an optional sign, at most one '.', every other character a digit, and at
   * least one digit.
   */
  predicate WellFormed(s: string) {
    var body := Unsigned(s);
    && Count(body, '.') <= 1
    && DigitsAndDots(body)
    && Count(body, '.') < |body|
  }

  // ---------------------------------------------------------------------------
  // The parser
  // ---------------------------------------------------------------------------

  /** The position of the first '.' in s, or |s| when there is none. */
  function DotIndex(s: string): (k: nat)
    ensures k <= |s|
    ensures forall i :: 0 <= i < k ==> s[i] != '.'
    ensures k < |s| ==> s[k] == '.'
  {
    if s == [] then 0 else if s[0] == '.' then 0 else 1 + DotIndex(s[1..])
  }

  /** The decimal whose integer digits are whole and whose fraction digits are fraction, if both are digit strings and not both empty. */
  function Assemble(whole: string, fraction: string): (r: Option<Decimal>)
    ensures r.Some? ==> r.value.num >= 0 && r.value.scale == |fraction|
  {
    if AllDigits(whole) && AllDigits(fraction) && |whole| + |fraction| > 0 then
      Some(Decimal(DigitsValue(whole) * Pow10(|fraction|) + DigitsValue(fraction), |fraction|))
    else
      None
  }

  /** The parse of an unsigned body: integer digits, then optionally '.' and fraction digits. */
  function ParseUnsigned(body: string): (r: Option<Decimal>)
    ensures r.Some? ==> r.value.num >= 0
  {
    var k := DotIndex(body);
    Assemble(body[..k], if k < |body| then body[k + 1..] else [])
  }

  /** The exact decimal denoted by s, or None where `float()` raises ValueError. */
  function ParseDecimal(s: string): (r: Option<Decimal>)
    ensures r.Some? <==> WellFormed(s)
    ensures r.Some? && r.value.num < 0 ==> |s| > 0 && s[0] == '-'
  {
    UnsignedAccepts(Unsigned(s));
    var negative := |s| > 0 && s[0] == '-';
    match ParseUnsigned(Unsigned(s))
    case None => None
    case Some(d) => Some(if negative then Decimal(-d.num, d.scale) else d)
  }

  // ---------------------------------------------------------------------------
  // Truncation toward zero, int()
  // ---------------------------------------------------------------------------

  function Abs(x: int): nat { if x < 0 then -x else x }

  /** q is a / b rounded toward zero: its magnitude is the whole number of times b fits in |a|, its sign that of a. */
  ghost predicate TruncatedQuotient(a: int, b: nat, q: int)
    requires b > 0
  {
    && Abs(q) * b <= Abs(a) < (Abs(q) + 1) * b
    && (q > 0 ==> a > 0) && (q < 0 ==> a < 0)
  }

  lemma NatDivBounds(n: nat, b: nat, q: nat)
    requires b > 0 && q == n / b
    ensures q * b <= n < (q + 1) * b
  {
  }

  /** The number of whole times b fits in n. */
  function NatDiv(n: nat, b: nat): (q: nat)
    requires b > 0
    ensures q * b <= n < (q + 1) * b
  {
    NatDivBounds(n, b, n / b);
    n / b
  }

  /** a / b with the quotient truncated toward zero, as int() does to a float quotient. */
  function TruncDiv(a: int, b: nat): (q: int)
    requires b > 0
    ensures TruncatedQuotient(a, b, q)
  {
    var n: int := NatDiv(Abs(a), b);
    if a >= 0 then n else -n
  }

  /** The whole number of hertz a decimal number of megahertz stands for, truncated toward zero. */
  function Hertz(d: Decimal): (hz: int)
    ensures TruncatedQuotient(d.num * HertzPerMegahertz, Pow10(d.scale), hz)
  {
    TruncDiv(d.num * HertzPerMegahertz, Pow10(d.scale))
  }

  /** The frequency field of a row in hertz, or None where `float()` fails. */
  function ParseFrequency(freq: string): (r: Option<int>)
    ensures r.Some? <==> WellFormed(ReplaceCommas(freq))
    ensures r.Some? ==>
      && ParseDecimal(ReplaceCommas(freq)).Some?
      && var d := ParseDecimal(ReplaceCommas(freq)).value;
         TruncatedQuotient(d.num * HertzPerMegahertz, Pow10(d.scale), r.value)
  {
    match ParseDecimal(ReplaceCommas(freq))
    case None => None
    case Some(d) => Some(Hertz(d))
  }

  // ---------------------------------------------------------------------------
  // Rendering a decimal, the inverse of the parse
  // ---------------------------------------------------------------------------

  /** The numeral of n with at least w digits, padded with leading zeros. */
  function PaddedDigits(n: nat, w: nat): (s: string)
    ensures |s| >= w && AllDigits(s)
  {
    var digits := NatToDigits(n);
    if |digits| < w then Zeros(w - |digits|) + digits else digits
  }

  /**
   * The digits of the magnitude of d: the whole part, then, when d.scale > 0, a '.'
   * and exactly d.scale fraction digits.
   */
  function RenderMagnitude(d: Decimal): (body: string)
    ensures |body| > 0 && IsDigit(body[0])
  {
    var p := Pow10(d.scale);
    var whole := NatToDigits(NatDiv(Abs(d.num), p));
    if d.scale == 0 then whole else whole + ['.'] + PaddedDigits(Abs(d.num) - NatDiv(Abs(d.num), p) * p, d.scale)
  }

  /** The text of d with exactly d.scale fraction digits: "-12.050" for Decimal(-12050, 3). */
  function Render(d: Decimal): (s: string)
  {
    (if d.num < 0 then "-" else "") + RenderMagnitude(d)
  }

  lemma PaddedDigitsValue(n: nat, w: nat)
    ensures DigitsValue(PaddedDigits(n, w)) == n
  {
    var digits := NatToDigits(n);
    if |digits| < w {
      var zeros := Zeros(w - |digits|);
      assert PaddedDigits(n, w) == zeros + digits;
      DigitsAppend(zeros, digits);
      ZerosValue(w - |digits|);
      assert 0 * Pow10(|digits|) == 0;
    }
  }

  lemma {:induction false} DotIndexAfterDigits(whole: string, rest: string)
    requires AllDigits(whole)
    requires rest == [] || rest[0] == '.'
    ensures DotIndex(whole + rest) == |whole|
  {
    if whole == [] {
      assert whole + rest == rest;
    } else {
      assert (whole + rest)[0] == whole[0];
      assert (whole + rest)[1..] == whole[1..] + rest;
      DotIndexAfterDigits(whole[1..], rest);
    }
  }

  lemma ParseWholeNumber(whole: string)
    requires AllDigits(whole)
    ensures ParseUnsigned(whole) == Assemble(whole, [])
  {
    assert whole == whole + [];
    DotIndexAfterDigits(whole, []);
    assert whole[..|whole|] == whole;
  }

  lemma ParseWithFraction(whole: string, fraction: string)
    requires AllDigits(whole)
    ensures ParseUnsigned(whole + ['.'] + fraction) == Assemble(whole, fraction)
  {
    var body := whole + ['.'] + fraction;
    assert body == whole + (['.'] + fraction);
    DotIndexAfterDigits(whole, ['.'] + fraction);
    assert body[..|whole|] == whole;
    assert body[|whole| + 1..] == fraction;
  }

  lemma {:induction false} NatToDigitsShort(n: nat, w: nat)
    requires w > 0 && n < Pow10(w)
    ensures |NatToDigits(n)| <= w
    decreases n
  {
    if n >= 10 {
      assert w > 1;
      assert n / 10 < Pow10(w - 1);
      NatToDigitsShort(n / 10, w - 1);
    }
  }

  lemma PaddedDigitsLength(n: nat, w: nat)
    requires w > 0 && n < Pow10(w)
    ensures |PaddedDigits(n, w)| == w
  {
    NatToDigitsShort(n, w);
  }

  lemma ParseRenderMagnitude(d: Decimal)
    ensures ParseUnsigned(RenderMagnitude(d)) == Some(Decimal(Abs(d.num), d.scale))
  {
    if d.scale == 0 {
      ParseRenderWhole(d);
    } else {
      ParseRenderFraction(d);
    }
  }

  lemma ParseRenderWhole(d: Decimal)
    requires d.scale == 0
    ensures ParseUnsigned(RenderMagnitude(d)) == Some(Decimal(Abs(d.num), d.scale))
  {
    assert NatDiv(Abs(d.num), 1) == Abs(d.num);
    ParseWholeNumber(NatToDigits(Abs(d.num)));
  }

  lemma ParseRenderFraction(d: Decimal)
    requires d.scale > 0
    ensures ParseUnsigned(RenderMagnitude(d)) == Some(Decimal(Abs(d.num), d.scale))
  {
    var p := Pow10(d.scale);
    var q := NatDiv(Abs(d.num), p);
    var r := Abs(d.num) - q * p;
    PaddedDigitsLength(r, d.scale);
    PaddedDigitsValue(r, d.scale);
    ParseParts(NatToDigits(q), PaddedDigits(r, d.scale), q, r, d.scale, Abs(d.num));
  }

  /** Whole digits, a '.' and scale fraction digits parse to the number they spell at that scale. */
  lemma ParseParts(whole: string, fraction: string, q: nat, r: nat, scale: nat, n: nat)
    requires AllDigits(whole) && AllDigits(fraction) && |whole| > 0 && |fraction| == scale
    requires DigitsValue(whole) == q && DigitsValue(fraction) == r && n == q * Pow10(scale) + r
    ensures ParseUnsigned(whole + ['.'] + fraction) == Some(Decimal(n, scale))
  {
    ParseWithFraction(whole, fraction);
  }

  lemma UnsignedRender(d: Decimal)
    ensures Unsigned(Render(d)) == RenderMagnitude(d)
    ensures (|Render(d)| > 0 && Render(d)[0] == '-') <==> d.num < 0
  {
    UnsignedSigned(RenderMagnitude(d), d.num < 0);
  }

  lemma UnsignedSigned(m: string, negative: bool)
    requires |m| > 0 && IsDigit(m[0])
    ensures Unsigned((if negative then "-" else "") + m) == m
    ensures (if negative then "-" else "") + m != [] && (((if negative then "-" else "") + m)[0] == '-' <==> negative)
  {
    if negative {
      assert ("-" + m)[1..] == m;
    } else {
      assert "" + m == m;
    }
  }

  /** Parsing the rendering of a decimal gives that decimal back. */
  lemma ParseRender(d: Decimal)
    ensures ParseDecimal(Render(d)) == Some(d)
  {
    UnsignedRender(d);
    ParseRenderMagnitude(d);
  }

  // ---------------------------------------------------------------------------
  // The grammar the parse accepts
  // ---------------------------------------------------------------------------

  lemma {:induction false} CountAppend(a: string, b: string, c: char)
    ensures Count(a + b, c) == Count(a, c) + Count(b, c)
  {
    if a == [] {
      assert a + b == b;
    } else {
      assert (a + b)[0] == a[0];
      assert (a + b)[1..] == a[1..] + b;
      CountAppend(a[1..], b, c);
    }
  }

  lemma {:induction false} CountZero(s: string, c: char)
    ensures Count(s, c) == 0 <==> forall i :: 0 <= i < |s| ==> s[i] != c
  {
    if s != [] {
      CountZero(s[1..], c);
      assert forall i :: 1 <= i < |s| ==> s[i] == s[1..][i - 1];
    }
  }

  lemma {:induction false} CountTwo(s: string, c: char, i: nat, j: nat)
    requires i < j < |s| && s[i] == c && s[j] == c
    ensures Count(s, c) >= 2
  {
    assert s == s[..j] + s[j..];
    CountAppend(s[..j], s[j..], c);
    CountZero(s[..j], c);
    assert s[..j][i] == c;
    assert s[j..][0] == c;
    CountZero(s[j..], c);
    if Count(s[..j], c) < 1 || Count(s[j..], c) < 1 {
      assert false;
    }
  }

  lemma UnsignedAcceptsNoDot(body: string)
    requires DotIndex(body) == |body|
    ensures ParseUnsigned(body).Some? <==> Count(body, '.') <= 1 && DigitsAndDots(body) && Count(body, '.') < |body|
  {
    assert body[..|body|] == body;
    CountZero(body, '.');
  }

  lemma UnsignedAcceptsDot(body: string)
    requires DotIndex(body) < |body|
    ensures ParseUnsigned(body).Some? <==> Count(body, '.') <= 1 && DigitsAndDots(body) && Count(body, '.') < |body|
  {
    var k := DotIndex(body);
    var whole := body[..k];
    var fraction := body[k + 1..];
    assert |whole| + 1 + |fraction| == |body|;
    ParseUnsignedAtDot(body, k);
    CountZero(whole, '.');
    CountZero(fraction, '.');
    DotSplit(body, k);
    DigitsAndDotsSplit(body, k);
    DigitsWithoutDots(fraction);
  }

  lemma ParseUnsignedAtDot(body: string, k: nat)
    requires k == DotIndex(body) < |body|
    ensures ParseUnsigned(body).Some? <==> AllDigits(body[..k]) && AllDigits(body[k + 1..]) && |body| > 1
  {
  }

  lemma DigitsWithoutDots(s: string)
    ensures AllDigits(s) <==> DigitsAndDots(s) && forall i :: 0 <= i < |s| ==> s[i] != '.'
  {
  }

  lemma DotSplit(body: string, k: nat)
    requires k < |body| && body[k] == '.'
    ensures Count(body, '.') == Count(body[..k], '.') + 1 + Count(body[k + 1..], '.')
  {
    var fraction := body[k + 1..];
    assert body == body[..k] + ("." + fraction);
    CountAppend(body[..k], "." + fraction, '.');
    assert ("." + fraction)[1..] == fraction;
  }

  lemma DigitsAndDotsSplit(body: string, k: nat)
    requires k < |body| && body[k] == '.'
    requires forall i :: 0 <= i < k ==> body[i] != '.'
    ensures DigitsAndDots(body) <==> AllDigits(body[..k]) && DigitsAndDots(body[k + 1..])
  {
    var fraction := body[k + 1..];
    assert forall i :: 0 <= i < |fraction| ==> fraction[i] == body[k + 1 + i];
  }

  /** The unsigned parse succeeds exactly on the bodies WellFormed describes. */
  lemma UnsignedAccepts(body: string)
    ensures ParseUnsigned(body).Some? <==> Count(body, '.') <= 1 && DigitsAndDots(body) && Count(body, '.') < |body|
  {
    if DotIndex(body) == |body| {
      UnsignedAcceptsNoDot(body);
    } else {
      UnsignedAcceptsDot(body);
    }
  }

  // ---------------------------------------------------------------------------
  // The properties of the frequency column
  // ---------------------------------------------------------------------------

  predicate IsSeparator(c: char) { c == ',' || c == '.' }

  /** Writing ',' or '.' as separator, anywhere, gives the same number of hertz. */
  lemma SeparatorIndependent(s: string, t: string)
    requires |s| == |t|
    requires forall i :: 0 <= i < |s| ==> s[i] == t[i] || (IsSeparator(s[i]) && IsSeparator(t[i]))
    ensures ParseFrequency(s) == ParseFrequency(t)
  {
    assert ReplaceCommas(s) == ReplaceCommas(t);
  }

  /** A field that holds two separators of either kind, such as "1,000.5", is rejected. */
  lemma TwoSeparatorsRejected(s: string, i: nat, j: nat)
    requires i < j < |s| && IsSeparator(s[i]) && IsSeparator(s[j])
    ensures ParseFrequency(s) == None
  {
    var t := ReplaceCommas(s);
    var body := Unsigned(t);
    if |t| > 0 && IsSign(t[0]) {
      assert i > 0;
      assert body[i - 1] == t[i] && body[j - 1] == t[j];
      CountTwo(body, '.', i - 1, j - 1);
    } else {
      CountTwo(body, '.', i, j);
    }
  }

  // ---------------------------------------------------------------------------
  // Truncation, not rounding
  // ---------------------------------------------------------------------------

  lemma MulCancel(x: nat, y: nat, c: nat)
    requires c > 0
    ensures x * c <= y * c ==> x <= y
    ensures x * c < y * c ==> x < y
  {
    if x > y {
      assert x * c == y * c + (x - y) * c;
    }
    if x >= y {
      assert x * c == y * c + (x - y) * c;
    }
  }

  /** There is only one quotient truncated toward zero. */
  lemma TruncatedQuotientUnique(a: int, b: nat, q1: int, q2: int)
    requires b > 0 && TruncatedQuotient(a, b, q1) && TruncatedQuotient(a, b, q2)
    ensures q1 == q2
  {
    MulCancel(Abs(q1), Abs(q2) + 1, b);
    MulCancel(Abs(q2), Abs(q1) + 1, b);
  }

  /** With at most six fraction digits the megahertz value is a whole number of hertz, and nothing is cut off. */
  lemma HertzExact(d: Decimal)
    requires d.scale <= 6
    ensures Hertz(d) == d.num * Pow10(6 - d.scale)
  {
    var q := d.num * Pow10(6 - d.scale);
    var b := Pow10(d.scale);
    Pow10Add(6 - d.scale, d.scale);
    assert Pow10(6) == HertzPerMegahertz;
    assert d.num * HertzPerMegahertz == q * b;
    assert Abs(q) * b == Abs(d.num * HertzPerMegahertz) by {
      if d.num < 0 {
        assert Abs(q) == -q;
      }
    }
    TruncatedQuotientUnique(d.num * HertzPerMegahertz, b, Hertz(d), q);
  }

  lemma ScaleBounds(m: nat, x: nat, y: nat, p1: nat, p2: nat)
    requires p1 > 0 && p2 > 0
    requires m * p1 <= x < (m + 1) * p1
    requires x * p2 == y * p1
    ensures m * p2 <= y < (m + 1) * p2
  {
    assert (m * p2) * p1 == (m * p1) * p2;
    assert ((m + 1) * p2) * p1 == ((m + 1) * p1) * p2;
    assert (m * p1) * p2 <= x * p2;
    assert x * p2 < ((m + 1) * p1) * p2;
    MulCancel(m * p2, y, p1);
    MulCancel(y, (m + 1) * p2, p1);
  }

  lemma AbsScaled(n1: int, n2: int, p1: nat, p2: nat, k: nat)
    requires n1 * p2 == n2 * p1 && p1 > 0 && p2 > 0
    ensures Abs(n1 * k) * p2 == Abs(n2 * k) * p1
    ensures (n1 > 0) == (n2 > 0) && (n1 < 0) == (n2 < 0)
  {
    if n1 < 0 {
      assert (-n1) * p2 == (-n2) * p1;
    }
    assert n1 > 0 ==> n1 * p2 > 0;
    assert n2 > 0 ==> n2 * p1 > 0;
    assert n1 < 0 ==> n1 * p2 < 0;
    assert n2 < 0 ==> n2 * p1 < 0;
    assert Abs(n1 * k) == Abs(n1) * k;
    assert Abs(n2 * k) == Abs(n2) * k;
    assert Abs(n1) * p2 == Abs(n2) * p1;
    assert (Abs(n1) * k) * p2 == (Abs(n1) * p2) * k;
    assert (Abs(n2) * k) * p1 == (Abs(n2) * p1) * k;
  }

  /**
   * Two decimals that denote the same number, such as "100.5" and "100.500",
   * give the same number of hertz.
   */
  lemma HertzOfEqualValues(d1: Decimal, d2: Decimal)
    requires d1.num * Pow10(d2.scale) == d2.num * Pow10(d1.scale)
    ensures Hertz(d1) == Hertz(d2)
  {
    var p1, p2 := Pow10(d1.scale), Pow10(d2.scale);
    var a1, a2 := d1.num * HertzPerMegahertz, d2.num * HertzPerMegahertz;
    var q := Hertz(d1);
    AbsScaled(d1.num, d2.num, p1, p2, HertzPerMegahertz);
    ScaleBounds(Abs(q), Abs(a1), Abs(a2), p1, p2);
    assert TruncatedQuotient(a2, p2, q);
    TruncatedQuotientUnique(a2, p2, q, Hertz(d2));
  }

  lemma ReplaceCommasWithoutCommas(s: string)
    requires forall i :: 0 <= i < |s| ==> s[i] != ','
    ensures ReplaceCommas(s) == s
  {
  }

  lemma RenderExample100500()
    ensures Render(Decimal(100500, 3)) == "100.500"
  {
    assert Pow10(3) == 1000;
    assert NatDiv(100500, 1000) == 100;
    assert NatToDigits(100) == "100";
    assert PaddedDigits(500, 3) == "500";
  }

  lemma RenderExample1005()
    ensures Render(Decimal(1005, 1)) == "100.5"
  {
    assert Pow10(1) == 10;
    assert NatDiv(1005, 10) == 100;
    assert NatToDigits(100) == "100";
  }

  lemma RenderExampleSubHertz()
    ensures Render(Decimal(9, 7)) == "0.0000009"
    ensures Render(Decimal(-9, 7)) == "-0.0000009"
  {
    assert Pow10(7) == 10000000;
    assert NatDiv(9, 10000000) == 0;
    assert NatToDigits(9) == "9";
    assert PaddedDigits(9, 7) == "0000009";
  }

  lemma ParseExample100500()
    ensures ParseDecimal("100.500") == Some(Decimal(100500, 3))
  {
    RenderExample100500();
    ParseRender(Decimal(100500, 3));
  }

  lemma ParseExample1005()
    ensures ParseDecimal("100.5") == Some(Decimal(1005, 1))
  {
    RenderExample1005();
    ParseRender(Decimal(1005, 1));
  }

  lemma ParseExampleSubHertz()
    ensures ParseDecimal("0.0000009") == Some(Decimal(9, 7))
    ensures ParseDecimal("-0.0000009") == Some(Decimal(-9, 7))
  {
    RenderExampleSubHertz();
    ParseRender(Decimal(9, 7));
    ParseRender(Decimal(-9, 7));
  }

  lemma ReplaceExample()
    ensures ReplaceCommas("100,5") == "100.5"
  {
    var r := ReplaceCommas("100,5");
    assert r[0] == '1' && r[1] == '0' && r[2] == '0' && r[3] == '.' && r[4] == '5';
  }

  /** "100.500" MHz is 100500000 Hz. */
  lemma ExampleDottedHertz()
    ensures ParseFrequency("100.500") == Some(100500000)
  {
    ReplaceCommasWithoutCommas("100.500");
    ParseExample100500();
    HertzOfMilli(100500);
  }

  lemma HertzOfMilli(n: int)
    ensures Hertz(Decimal(n, 3)) == n * 1000
  {
    HertzExact(Decimal(n, 3));
    assert Pow10(3) == 1000;
  }

  /** "100,5" MHz is 100500000 Hz: the comma is read as a decimal point. */
  lemma ExampleCommaHertz()
    ensures ParseFrequency("100,5") == Some(100500000)
  {
    ReplaceExample();
    ParseExample1005();
    HertzExact(Decimal(1005, 1));
    assert Pow10(5) == 100000;
  }

  /** 0.0000009 MHz is 0.9 Hz: int() cuts it to 0 rather than rounding it to 1, and -0.0000009 to 0 rather than -1. */
  lemma ExampleTruncatedTowardZero()
    ensures ParseFrequency("0.0000009") == Some(0)
    ensures ParseFrequency("-0.0000009") == Some(0)
  {
    ReplaceCommasWithoutCommas("0.0000009");
    ReplaceCommasWithoutCommas("-0.0000009");
    ParseExampleSubHertz();
    assert Pow10(7) == 10000000;
    assert Hertz(Decimal(9, 7)) == 0;
    assert Hertz(Decimal(-9, 7)) == 0;
  }
}
