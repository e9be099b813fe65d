/** Python's `float(text)` on the decimal forms a price takes, with exact values.

    Accepted, once the whitespace `float` skips is gone from either end: an optional sign
    `+`/`-`, then digits with at most one decimal point and at least one digit (`12`, `12.`,
    `.5`, `12.50`), then an optional exponent `e`/`E`, optional sign, at least one digit. Everything else is rejected, as
    `float` rejects it with `ValueError`. */
module Decimal {
  import opened Options
  import opened Seqs
  import opened Text

  function Pow10(n: nat): (r: nat)
    ensures r >= 1
  {
    if n == 0 then 1 else 10 * Pow10(n - 1)
  }

  /** The natural number an ASCII digit string denotes (0 for the empty string). */
  function DigitsValue(s: string): nat
    requires AllDigits(s)
  {
    if s == [] then 0 else DigitsValue(s[..|s| - 1]) * 10 + DigitValue(s[|s| - 1])
  }

  /** Multiplies by ten to the power `e`, which may be negative. */
  function Scale(m: real, e: int): real
    decreases if e >= 0 then e else -e
  {
    if e == 0 then m
    else if e > 0 then Scale(m, e - 1) * 10.0
    else Scale(m, e + 1) / 10.0
  }

  function DigitValue(c: char): nat
    requires IsAsciiDigit(c)
  {
    c as int - '0' as int
  }

  /** The digits `f` read after a decimal point, one place at a time. */
  function FractionValue(f: string): real
    requires AllDigits(f)
  {
    if f == [] then 0.0 else (DigitValue(f[0]) as real + FractionValue(f[1..])) / 10.0
  }

  /** The exponent suffix: empty, or `e`/`E`, an optional sign and at least one digit. */
  function ParseExponent(s: string): Option<int> {
    if s == [] then Some(0)
    else if s[0] != 'e' && s[0] != 'E' then None
    else
      var t := s[1..];
      var signed := |t| > 0 && (t[0] == '+' || t[0] == '-');
      var d := if signed then t[1..] else t;
      if d != [] && AllDigits(d) then
        Some(if signed && t[0] == '-' then -(DigitsValue(d) as int) else DigitsValue(d))
      else None
  }

  /** The number a stripped text denotes, or `None` where `float` raises `ValueError`. */
  function ParseNumber(t: string): Option<real> {
    var signed := |t| > 0 && (t[0] == '-' || t[0] == '+');
    var negative := signed && t[0] == '-';
    match ParseUnsigned(if signed then t[1..] else t)
    case None => None
    case Some(v) => Some(if negative then -v else v)
  }

  /** Integer digits first, then the rest. */
  function ParseUnsigned(u: string): Option<real> {
    var a := LeadingWhile(u, IsAsciiDigit);
    assert AllDigits(u[..a]) by { LeadingWhileSpec(u, IsAsciiDigit); }
    ParseAfterInteger(u[..a], u[a..])
  }

  /** An optional point and fraction digits after the integer digits, then the rest. */
  function ParseAfterInteger(whole: string, rest: string): Option<real>
    requires AllDigits(whole)
  {
    var point := |rest| > 0 && rest[0] == '.';
    var afterPoint := if point then rest[1..] else [];
    var f := LeadingWhile(afterPoint, IsAsciiDigit);
    assert AllDigits(afterPoint[..f]) by { LeadingWhileSpec(afterPoint, IsAsciiDigit); }
    ParseMantissa(whole, afterPoint[..f], if point then afterPoint[f..] else rest)
  }

  /** At least one digit around the point, and what follows must be an exponent. */
  function ParseMantissa(whole: string, fraction: string, tail: string): Option<real>
    requires AllDigits(whole) && AllDigits(fraction)
  {
    if |whole| + |fraction| == 0 then None
    else
      match ParseExponent(tail)
      case None => None
      case Some(e) => Some(Scale(Mantissa(whole, fraction), e))
  }

  /** The digits `whole` before the point and `fraction` after it, as a number. */
  function Mantissa(whole: string, fraction: string): real
    requires AllDigits(whole) && AllDigits(fraction)
  {
    DigitsValue(whole) as real + FractionValue(fraction)
  }

  /** The whitespace `float()` skips around a number: ASCII tab, line feed, vertical tab,
      form feed, carriage return and space, and every non-ASCII character `str.isspace()`
      accepts (`float` reads those as a space first). The ASCII separators U+001C to U+001F
      are whitespace to `str.isspace()`, but `float` does not skip them. */
  predicate IsFloatSpace(c: char) {
    IsSpace(c) && !('\U{1c}' <= c <= '\U{1f}')
  }

  /** `float(s)`: the whitespace `IsFloatSpace` names is ignored at either end. */
  function ParseFloat(s: string): Option<real> {
    ParseNumber(Trim(s, IsFloatSpace))
  }

  /** `float` skips any run of its whitespace on either side of the text: what is left in
      between is parsed as it stands, and is its own `float` text. */
  lemma FloatSkipsSpace(w1: string, s: string, w2: string)
    requires forall k :: 0 <= k < |w1| ==> IsFloatSpace(w1[k])
    requires forall k :: 0 <= k < |w2| ==> IsFloatSpace(w2[k])
    requires s != [] && !IsFloatSpace(s[0]) && !IsFloatSpace(s[|s| - 1])
    ensures ParseFloat(w1 + s + w2) == ParseNumber(s)
    ensures ParseFloat(s) == ParseNumber(s)
  {
    TrimPadded(w1, s, w2, IsFloatSpace);
    TrimPadded([], s, [], IsFloatSpace);
    assert [] + s + [] == s;
  }


  /** The separators U+001C to U+001F are whitespace to `str.strip()`, yet `float` refuses a
      number that follows one. */
  lemma FloatRefusesSeparator(d: string, c: char)
    requires AllDigits(d) && '\U{1c}' <= c <= '\U{1f}'
    ensures Strip([c] + d) == d
    ensures ParseFloat([c] + d).None?
  {
    SeparatorStripped(d, c);
    SeparatorKept(d, c);
    NoNumberStart([c] + d);
  }

  /** `float` keeps a leading separator U+001C to U+001F. */
  lemma SeparatorKept(d: string, c: char)
    requires AllDigits(d) && '\U{1c}' <= c <= '\U{1f}'
    ensures Trim([c] + d, IsFloatSpace) == [c] + d
  {
    var s := [c] + d;
    assert forall k :: 0 <= k < |s| ==> !IsFloatSpace(s[k]) by {
      assert forall k :: 1 <= k < |s| ==> s[k] == d[k - 1];
    }
    TrimSpec(s, IsFloatSpace);
  }

  /** Text that starts with neither a sign, a digit nor a point is no number. */
  lemma NoNumberStart(t: string)
    requires t != [] && !IsAsciiDigit(t[0]) && t[0] !in "+-."
    ensures ParseNumber(t).None?
  {
    assert ParseUnsigned(t) == ParseAfterInteger([], t) by {
      assert LeadingWhile(t, IsAsciiDigit) == 0;
      assert t[..0] == [] && t[0..] == t;
    }
  }

  /** `str.strip()` removes a leading separator U+001C to U+001F. */
  lemma SeparatorStripped(d: string, c: char)
    requires AllDigits(d) && '\U{1c}' <= c <= '\U{1f}'
    ensures Strip([c] + d) == d
  {
    var s := [c] + d;
    assert s[1..] == d;
    assert forall k :: 0 <= k < |d| ==> !IsSpace(d[k]);
    TrimSpec(d, IsSpace);
    assert LeadingWhile(s, IsSpace) == 1 by {
      if d != [] { assert s[1..][0] == d[0]; }
    }
  }

  /** `float` refuses any text without a digit: a sign, a point or an exponent alone is
      not a number. */
  lemma ParseFloatNeedsDigit(s: string)
    ensures ParseFloat(s).Some? ==> CountDigits(s) >= 1
  {
    if ParseFloat(s).Some? {
      var k := NumberHasDigit(Trim(s, IsFloatSpace));
      StrippedDigit(s, k);
    }
  }

  /** A number `ParseNumber` accepts has a digit before or right after its point; the
      position of one is returned. */
  lemma NumberHasDigit(t: string) returns (k: nat)
    requires ParseNumber(t).Some?
    ensures k < |t| && IsAsciiDigit(t[k])
  {
    var signed := |t| > 0 && (t[0] == '-' || t[0] == '+');
    var off := if signed then 1 else 0;
    var u := t[off..];
    assert ParseUnsigned(u).Some? by {
      assert (if signed then t[1..] else t) == u;
    }
    var a := LeadingWhile(u, IsAsciiDigit);
    assert AllDigits(u[..a]) by { LeadingWhileSpec(u, IsAsciiDigit); }
    assert ParseAfterInteger(u[..a], u[a..]).Some?;
    AfterIntegerHasDigit(u[..a], u[a..]);
    if a >= 1 {
      k := off;
      assert t[k] == u[..a][0];
    } else {
      k := off + 1;
      assert t[k] == u[a..][1];
    }
  }

  /** What follows the integer digits parses only when there was a digit before the point
      or one comes right after it. */
  lemma AfterIntegerHasDigit(whole: string, rest: string)
    requires AllDigits(whole)
    requires ParseAfterInteger(whole, rest).Some?
    ensures |whole| >= 1 || (|rest| >= 2 && rest[0] == '.' && IsAsciiDigit(rest[1]))
  {
    var point := |rest| > 0 && rest[0] == '.';
    var afterPoint := if point then rest[1..] else [];
    var f := LeadingWhile(afterPoint, IsAsciiDigit);
    LeadingWhileSpec(afterPoint, IsAsciiDigit);
    if |whole| == 0 {
      assert |afterPoint[..f]| >= 1;
      assert afterPoint[0] == rest[1];
    }
  }

  /** A digit left after trimming is a digit of the text it came from. */
  lemma StrippedDigit(s: string, k: nat)
    requires k < |Trim(s, IsFloatSpace)| && IsAsciiDigit(Trim(s, IsFloatSpace)[k])
    ensures CountDigits(s) >= 1
  {
    var a := LeadingWhile(s, IsFloatSpace);
    assert Trim(s, IsFloatSpace)[k] == s[a..][k] == s[a + k];
    assert s[a + k] in Filter(s, IsAsciiDigit);
  }

  /** The leading run of digits of `a + rest` is `a` when `rest` does not start with a digit. */
  lemma LeadingDigitsOf(a: string, rest: string)
    requires AllDigits(a)
    requires rest == [] || !IsAsciiDigit(rest[0])
    ensures LeadingWhile(a + rest, IsAsciiDigit) == |a|
  {
    var s := a + rest;
    LeadingWhileSpec(s, IsAsciiDigit);
    assert forall k :: 0 <= k < |a| ==> s[k] == a[k];
    assert |a| < |s| ==> s[|a|] == rest[0];
  }

  /** Text without whitespace is its own `strip()`. */
  lemma StripDigitsAndDots(s: string)
    requires forall k :: 0 <= k < |s| ==> IsAsciiDigit(s[k]) || s[k] == '.'
    ensures Strip(s) == s
  {
    assert forall k :: 0 <= k < |s| ==> !IsSpace(s[k]);
    StripSpec(s);
  }

  /** The integer part of `whole + rest` is `whole` when `rest` does not start with a digit. */
  lemma UnsignedSplit(whole: string, rest: string)
    requires AllDigits(whole)
    requires rest == [] || !IsAsciiDigit(rest[0])
    ensures ParseUnsigned(whole + rest) == ParseAfterInteger(whole, rest)
  {
    LeadingDigitsOf(whole, rest);
    assert (whole + rest)[..|whole|] == whole;
    assert (whole + rest)[|whole|..] == rest;
  }

  /** Unsigned text without whitespace goes straight to the unsigned parse. */
  lemma FloatOfUnsigned(s: string)
    requires forall k :: 0 <= k < |s| ==> IsAsciiDigit(s[k]) || s[k] == '.'
    ensures ParseFloat(s) == ParseUnsigned(s)
  {
    assert forall k :: 0 <= k < |s| ==> !IsFloatSpace(s[k]);
    TrimSpec(s, IsFloatSpace);
  }

  /** After the integer digits, a point followed only by digits ends the mantissa. */
  lemma PointThenDigits(whole: string, b: string)
    requires AllDigits(whole) && AllDigits(b)
    ensures ParseAfterInteger(whole, "." + b) == ParseMantissa(whole, b, [])
  {
    var rest := "." + b;
    assert rest[1..] == b;
    LeadingDigitsOf(b, []);
    assert b + [] == b;
    assert b[..|b|] == b && b[|b|..] == [];
  }

  /** An empty exponent leaves the mantissa as it is. */
  lemma MantissaWithoutExponent(whole: string, fraction: string)
    requires AllDigits(whole) && AllDigits(fraction) && |whole| + |fraction| >= 1
    ensures ParseMantissa(whole, fraction, []) == Some(Mantissa(whole, fraction))
  {
    assert ParseExponent([]) == Some(0);
  }

  /** `float` of a non-empty digit string is its integer value. */
  lemma ParseInteger(a: string)
    requires AllDigits(a) && |a| >= 1
    ensures ParseFloat(a) == Some(DigitsValue(a) as real)
  {
    FloatOfUnsigned(a);
    UnsignedSplit(a, []);
    assert a + [] == a;
    MantissaWithoutExponent(a, []);
    IntegerMantissa(a);
  }

  lemma IntegerMantissa(a: string)
    requires AllDigits(a)
    ensures Mantissa(a, []) == DigitsValue(a) as real
  {
  }

  /** `float(a + "." + b)` for digit strings `a`, `b` with at least one digit between them
      is `a` plus `b` read as a decimal fraction of `|b|` places. */
  lemma ParseDecimal(a: string, b: string)
    requires AllDigits(a) && AllDigits(b) && |a| + |b| >= 1
    ensures ParseFloat(a + "." + b) == Some(Mantissa(a, b))
  {
    var s := a + ("." + b);
    assert a + "." + b == s;
    forall k | 0 <= k < |s| ensures IsAsciiDigit(s[k]) || s[k] == '.' {
      if k < |a| { assert s[k] == a[k]; }
      else if k > |a| { assert s[k] == b[k - |a| - 1]; }
    }
    FloatOfUnsigned(s);
    UnsignedSplit(a, "." + b);
    PointThenDigits(a, b);
    MantissaWithoutExponent(a, b);
  }

  /** `float("0." + d)` for a digit string `d` is `d` read as a fraction, in [0, 1). */
  lemma ParseFraction(d: string)
    requires AllDigits(d)
    ensures ParseFloat("0." + d) == Some(FractionValue(d))
    ensures 0.0 <= FractionValue(d) < 1.0
  {
    assert "0." + d == "0" + "." + d;
    assert DigitsValue("0") == 0 by {
      assert "0"[..0] == [];
    }
    ParseDecimal("0", d);
    FractionValueBound(d);
  }

  lemma {:induction false} FractionValueBound(f: string)
    requires AllDigits(f)
    ensures 0.0 <= FractionValue(f) < 1.0
  {
    if f != [] {
      FractionValueBound(f[1..]);
    }
  }

  /** The leading digit of a digit string carries the highest power of ten. */
  lemma {:induction false} DigitsValueFront(f: string)
    requires AllDigits(f) && |f| >= 1
    ensures DigitsValue(f) == DigitValue(f[0]) * Pow10(|f| - 1) + DigitsValue(f[1..])
  {
    var n := |f|;
    if n >= 2 {
      var init := f[..n - 1];
      DigitsValueFront(init);
      assert init[0] == f[0];
      assert init[1..] == f[1..][..n - 2];
      assert f[1..][n - 2] == f[n - 1];
      var d0, p := DigitValue(f[0]), Pow10(n - 2);
      assert DigitsValue(f) == (d0 * p + DigitsValue(init[1..])) * 10 + DigitValue(f[n - 1]);
      assert DigitsValue(f[1..]) == DigitsValue(init[1..]) * 10 + DigitValue(f[n - 1]);
      assert (d0 * p) * 10 == d0 * (p * 10);
    } else {
      assert f[..0] == [];
      assert f[1..] == [];
    }
  }

  /** Digits after the point are a numerator over a power of ten: `0.d` is `d / 10^|d|`. */
  lemma {:induction false} FractionValueRatio(f: string)
    requires AllDigits(f)
    ensures FractionValue(f) == DigitsValue(f) as real / Pow10(|f|) as real
  {
    if f != [] {
      var rest := f[1..];
      FractionValueRatio(rest);
      DigitsValueFront(f);
      assert FractionValue(f) == (DigitValue(f[0]) as real + FractionValue(rest)) / 10.0;
      assert Pow10(|f|) == 10 * Pow10(|rest|);
      RatioStep(DigitValue(f[0]), DigitsValue(rest), Pow10(|rest|), FractionValue(rest));
    }
  }

  /** `(d + x/p) / 10 == (d*p + x) / (10*p)`, for the digit `d` in front of the digits `x`
      over `p`. */
  lemma RatioStep(d: nat, x: nat, p: nat, fv: real)
    requires p >= 1 && fv == x as real / p as real
    ensures (d as real + fv) / 10.0 == (d * p + x) as real / (10 * p) as real
  {
    RealOfFront(d, p, x);
    ShiftPlace(d as real, x as real, p as real);
  }

  lemma RealOfFront(a: nat, b: nat, c: nat)
    ensures (a * b + c) as real == a as real * b as real + c as real
  {
  }

  /** One more leading digit: `(d + x/p) / 10 == (d*p + x) / (10*p)`. */
  lemma ShiftPlace(d: real, x: real, p: real)
    requires p > 0.0
    ensures (d + x / p) / 10.0 == (d * p + x) / (10.0 * p)
  {
    var q := x / p;
    assert x == q * p;
    assert d * p + x == (d + q) * p;
    assert (d + q) * p / (10.0 * p) == (d + q) / 10.0;
  }

  /** On text made only of ASCII digits and dots, `float` succeeds exactly when there is at
      least one digit and at most one dot. */
  lemma ParseDigitsAndDots(s: string)
    requires forall k :: 0 <= k < |s| ==> IsAsciiDigit(s[k]) || s[k] == '.'
    ensures ParseFloat(s).Some? <==> CountDigits(s) >= 1 && Count(s, '.') <= 1
  {
    FloatOfUnsigned(s);
    UnsignedDigitsAndDots(s);
  }

  /** The same for the unsigned parse, which `float` reaches on such text. */
  lemma UnsignedDigitsAndDots(s: string)
    requires forall k :: 0 <= k < |s| ==> IsAsciiDigit(s[k]) || s[k] == '.'
    ensures ParseUnsigned(s).Some? <==> CountDigits(s) >= 1 && Count(s, '.') <= 1
  {
    var a := LeadingWhile(s, IsAsciiDigit);
    var whole, rest := s[..a], s[a..];
    assert AllDigits(whole) && (rest == [] || rest[0] == '.')
        && forall k :: 0 <= k < |rest| ==> IsAsciiDigit(rest[k]) || rest[k] == '.'
    by {
      LeadingWhileSpec(s, IsAsciiDigit);
      assert rest != [] ==> rest[0] == s[a];
      assert forall k :: 0 <= k < |rest| ==> rest[k] == s[a + k];
    }
    assert ParseUnsigned(s) == ParseAfterInteger(whole, rest) by {
      assert s == whole + rest;
      UnsignedSplit(whole, rest);
    }
    assert CountDigits(s) == |whole| + CountDigits(rest) by {
      assert s == whole + rest;
      FilterAllKept(whole, IsAsciiDigit);
      FilterAppend(whole, rest, IsAsciiDigit);
    }
    assert Count(s, '.') == Count(rest, '.') by {
      assert s == whole + rest;
      assert '.' !in multiset(whole);
    }
    AfterIntegerDigitsAndDots(whole, rest);
  }

  /** What follows the integer digits decides: at most one point, and some digit overall. */
  lemma AfterIntegerDigitsAndDots(whole: string, rest: string)
    requires AllDigits(whole)
    requires forall k :: 0 <= k < |rest| ==> IsAsciiDigit(rest[k]) || rest[k] == '.'
    requires rest == [] || rest[0] == '.'
    ensures ParseAfterInteger(whole, rest).Some?
        <==> |whole| + CountDigits(rest) >= 1 && Count(rest, '.') <= 1
  {
    if rest == [] {
      MantissaEnd(whole, [], []);
    } else {
      var afterDot := rest[1..];
      var f := LeadingWhile(afterDot, IsAsciiDigit);
      var fraction, tail := afterDot[..f], afterDot[f..];
      assert AllDigits(fraction) && (tail == [] || tail[0] == '.') by {
        LeadingWhileSpec(afterDot, IsAsciiDigit);
        assert tail != [] ==> tail[0] == afterDot[f] == rest[f + 1];
      }
      assert ParseAfterInteger(whole, rest) == ParseMantissa(whole, fraction, tail);
      assert rest == ['.'] + (fraction + tail);
      PointMantissa(whole, fraction, tail);
    }
  }

  /** A point, fraction digits and a tail that can only start with another point. */
  lemma PointMantissa(whole: string, fraction: string, tail: string)
    requires AllDigits(whole) && AllDigits(fraction)
    requires tail == [] || tail[0] == '.'
    ensures ParseMantissa(whole, fraction, tail).Some?
        <==> |whole| + CountDigits(['.'] + (fraction + tail)) >= 1
             && Count(['.'] + (fraction + tail), '.') <= 1
  {
    MantissaEnd(whole, fraction, tail);
    PointRestCounts(fraction, tail);
    if tail != [] {
      assert tail[0] in multiset(tail);
    } else {
      assert CountDigits(tail) == 0 && Count(tail, '.') == 0;
    }
  }

  /** The mantissa parses when nothing follows it, and fails when a second point follows. */
  lemma MantissaEnd(whole: string, fraction: string, tail: string)
    requires AllDigits(whole) && AllDigits(fraction)
    requires tail == [] || tail[0] == '.'
    ensures ParseMantissa(whole, fraction, tail).Some? <==> tail == [] && |whole| + |fraction| >= 1
  {
    assert ParseExponent([]) == Some(0);
  }

  lemma PointRestCounts(fraction: string, tail: string)
    requires AllDigits(fraction)
    ensures CountDigits(['.'] + (fraction + tail)) == |fraction| + CountDigits(tail)
    ensures Count(['.'] + (fraction + tail), '.') == 1 + Count(tail, '.')
  {
    FilterAllKept(fraction, IsAsciiDigit);
    FilterAppend(['.'], fraction + tail, IsAsciiDigit);
    FilterAppend(fraction, tail, IsAsciiDigit);
    assert Filter(['.'], IsAsciiDigit) == [];
    assert '.' !in multiset(fraction);
  }
}
