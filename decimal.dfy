/**
 * The `decimal` text the lecturer's claim form works with: `decimal.TryParse` on the hours,
 * rate and amount boxes, and `ToString("F2")` for the computed amount. A decimal is modelled
 * by its exact value, a `real`. `TryParse` is modelled as the scanner .NET's number parser
 * is: leading white space, an optional sign, digits with ',' group separators, at most one '.'
 * and more digits, then white space and a sign when none led, with at least one digit in all
 * (see README for what of the .NET number grammar is left out).
 */
module Decimals {
  import opened Wrappers
  import opened Text

  predicate IsDigit(c: char) { '0' <= c <= '9' }

  /** The value of one decimal digit. */
  function DigitValue(c: char): (d: nat)
    requires IsDigit(c)
    ensures d < 10
  {
    c as int - '0' as int
  }

  /** The digit character of `d`. */
  function Digit(d: nat): (c: char)
    requires d < 10
    ensures IsDigit(c) && DigitValue(c) == d
  {
    ('0' as int + d) as char
  }

  /** Every character of `s` is a decimal digit. */
  predicate AllDigits(s: string) {
    s == [] || (AllDigits(s[..|s| - 1]) && IsDigit(s[|s| - 1]))
  }

  /** The value of a run of decimal digits, read most significant first. */
  function DigitsValue(s: string): nat
    requires AllDigits(s)
  {
    if s == [] then 0 else DigitsValue(s[..|s| - 1]) * 10 + DigitValue(s[|s| - 1])
  }

  function Pow10(k: nat): (r: nat)
    ensures r >= 1
  {
    if k == 0 then 1 else 10 * Pow10(k - 1)
  }

  /** The shortest decimal numeral of `n`: digits only, the first one included. */
  function NatDigits(n: nat): (s: string)
    ensures 1 <= |s| && AllDigits(s) && IsDigit(s[0])
  {
    if n < 10 then
      assert [Digit(n)][..0] == [];
      [Digit(n)]
    else
      var s := NatDigits(n / 10) + [Digit(n % 10)];
      assert s[..|s| - 1] == NatDigits(n / 10);
      s
  }

  /** The numeral of `n` reads back as `n`. */
  lemma {:induction false} NatDigitsValue(n: nat)
    ensures DigitsValue(NatDigits(n)) == n
  {
    if n >= 10 {
      var s := NatDigits(n);
      assert s[..|s| - 1] == NatDigits(n / 10);
      NatDigitsValue(n / 10);
    }
  }

  /** The white space .NET's number parser skips around a number: U+0009..U+000D and the
      space. The wider set of `char.IsWhiteSpace` (no-break space and the like) is not skipped. */
  predicate NumberWhite(c: char) { c == ' ' || '\t' <= c <= '\r' }

  /** Only NUL characters: what the number parser accepts after the number and its padding. */
  predicate AllNul(s: string) { forall i :: 0 <= i < |s| ==> s[i] == '\0' }

  /** `decimal.TryParse(text, out value)` with `NumberStyles.Number` and the invariant culture's
      '.' and ',': `Some(value)` when it returns true. Leading white space is skipped first. */
  function ParseDecimal(text: string): Option<real> {
    if text != [] && NumberWhite(text[0]) then ParseDecimal(text[1..]) else ParseSign(text)
  }

  /** An optional leading sign; '-' makes the value negative. `signed` records that a sign was
      read, so that no trailing one may follow. */
  function ParseSign(s: string): Option<real> {
    if s != [] && s[0] == '-' then ParseWhole(s[1..], true, true, 0, 0)
    else if s != [] && s[0] == '+' then ParseWhole(s[1..], false, true, 0, 0)
    else ParseWhole(s, false, false, 0, 0)
  }

  /** The digits before the point, accumulated into `value`; `digits` counts the digits read.
      A ',' group separator is skipped anywhere after the first digit. */
  function ParseWhole(s: string, negative: bool, signed: bool, value: nat, digits: nat): Option<real> {
    if s != [] && IsDigit(s[0]) then
      ParseWhole(s[1..], negative, signed, value * 10 + DigitValue(s[0]), digits + 1)
    else if s != [] && s[0] == ',' && digits > 0 then
      ParseWhole(s[1..], negative, signed, value, digits)
    else if s != [] && s[0] == '.' then
      ParseFraction(s[1..], negative, signed, value, digits, 0, 0)
    else
      ParseEnd(s, negative, signed, value as real, digits)
  }

  /** The digits after the point: `fraction` over ten to the `places`. */
  function ParseFraction(s: string, negative: bool, signed: bool, whole: nat, digits: nat, fraction: nat, places: nat): Option<real> {
    if s != [] && IsDigit(s[0]) then
      ParseFraction(s[1..], negative, signed, whole, digits, fraction * 10 + DigitValue(s[0]), places + 1)
    else
      ParseEnd(s, negative, signed, whole as real + fraction as real / Pow10(places) as real, digits + places)
  }

  /** After the number: white space, and a sign when none led, in any order; then only NULs
      may remain, and there must have been a digit. */
  function ParseEnd(s: string, negative: bool, signed: bool, magnitude: real, digits: nat): Option<real> {
    if s != [] && NumberWhite(s[0]) then ParseEnd(s[1..], negative, signed, magnitude, digits)
    else if s != [] && !signed && (s[0] == '-' || s[0] == '+') then ParseEnd(s[1..], s[0] == '-', true, magnitude, digits)
    else if digits > 0 && AllNul(s) then Some(if negative then -magnitude else magnitude)
    else None
  }

  /** A blank text is not a number: `TryParse` fails on an empty or cleared box, and on one
      holding only white space, whichever kind. */
  lemma {:induction false} BlankIsNotANumber(s: string)
    requires IsBlank(s)
    ensures ParseDecimal(s) == None
  {
    if s != [] {
      assert IsBlank(s[1..]) by {
        assert forall i :: 0 <= i < |s| - 1 ==> s[1..][i] == s[i + 1];
      }
      BlankIsNotANumber(s[1..]);
    }
  }

  /** Where the number grammar is narrower or wider than `char.IsWhiteSpace` and a leading
      sign: a no-break space is not padding, a sign may trail, but only one sign, and group
      separators follow a digit. */
  lemma NumberGrammarEdges()
    ensures ParseDecimal("\U{A0}5") == None
    ensures ParseDecimal(" 5\t") == Some(5.0)
    ensures ParseDecimal("5 -") == Some(-5.0)
    ensures ParseDecimal("-5-") == None
    ensures ParseDecimal("1,000.5") == Some(1000.5)
    ensures ParseDecimal(",5") == None
  {
    assert ParseDecimal("1,000.5") == ParseWhole(",000.5", false, false, 1, 1);
    assert ParseWhole(",000.5", false, false, 1, 1) == ParseWhole(".5", false, false, 1000, 4);
    assert Pow10(1) == 10;
  }

  /** A run of digits before anything else is read whole into the accumulated value. */
  lemma {:induction false} ParseWholeDigits(ds: string, rest: string, negative: bool, signed: bool)
    requires AllDigits(ds)
    ensures ParseWhole(ds + rest, negative, signed, 0, 0) == ParseWhole(rest, negative, signed, DigitsValue(ds), |ds|)
  {
    if ds == [] {
      assert ds + rest == rest;
    } else {
      var p, d := ds[..|ds| - 1], ds[|ds| - 1];
      assert ds + rest == p + ([d] + rest);
      ParseWholeDigits(p, [d] + rest, negative, signed);
      assert ([d] + rest)[1..] == rest;
    }
  }

  /** Rounds to the nearest integer, halves away from zero (`MidpointRounding.AwayFromZero`,
      the rounding `decimal.ToString("F2")` uses). */
  function RoundHalfAwayFromZero(x: real): int {
    if x >= 0.0 then (x + 0.5).Floor else -((-x + 0.5).Floor)
  }

  /** The value rounded to whole cents, as a count of cents: what `ToString("F2")` displays,
      times a hundred. */
  function Cents(x: real): int {
    RoundHalfAwayFromZero(x * 100.0)
  }

  /** Rounding to cents moves a value by at most half a cent and keeps its sign. */
  lemma CentsError(x: real)
    ensures x * 100.0 - 0.5 <= Cents(x) as real <= x * 100.0 + 0.5
    ensures x >= 0.0 ==> Cents(x) >= 0
    ensures x <= 0.0 ==> Cents(x) <= 0
  {
  }

  /** The unsigned two-decimal numeral of `n` cents: whole part, '.', two digits. */
  function CentsBody(n: nat): string {
    NatDigits(n / 100) + "." + [Digit(n % 100 / 10), Digit(n % 10)]
  }

  /** A point and two digits add the hundredths `c` to the whole part read so far. */
  lemma PointTwoDigits(c: nat, negative: bool, signed: bool, whole: nat, digits: nat)
    requires c < 100
    ensures ParseWhole("." + [Digit(c / 10), Digit(c % 10)], negative, signed, whole, digits)
         == ParseEnd([], negative, signed, whole as real + c as real / 100.0, digits + 2)
  {
    var d1, d2 := Digit(c / 10), Digit(c % 10);
    assert ("." + [d1, d2])[1..] == [d1, d2] && [d1, d2][1..] == [d2] && [d2][1..] == [];
    assert ParseFraction([d1, d2], negative, signed, whole, digits, 0, 0)
        == ParseFraction([], negative, signed, whole, digits, c, 2);
    assert Pow10(2) == 100;
  }

  /** After the sign, the unsigned numeral reads as `n` over a hundred. */
  lemma {:induction false} CentsBodyWhole(n: nat, negative: bool, signed: bool)
    ensures ParseWhole(CentsBody(n), negative, signed, 0, 0)
         == Some(if negative then -(n as real / 100.0) else n as real / 100.0)
  {
    var whole := NatDigits(n / 100);
    var c := n % 100;
    var point := "." + [Digit(c / 10), Digit(c % 10)];
    assert CentsBody(n) == whole + point;
    ParseWholeDigits(whole, point, negative, signed);
    NatDigitsValue(n / 100);
    PointTwoDigits(c, negative, signed, n / 100, |whole|);
    assert (n / 100) as real + c as real / 100.0 == n as real / 100.0 by {
      assert n == (n / 100) * 100 + c;
    }
  }

  /** The two-decimal numeral of a count of cents, with a '-' when it is negative. */
  function CentsText(c: int): string {
    if c < 0 then "-" + CentsBody(-c) else CentsBody(c)
  }

  /** The numeral of a count of cents reads back as the count over a hundred. */
  lemma CentsTextParsesBack(c: int)
    ensures ParseDecimal(CentsText(c)) == Some(c as real / 100.0)
  {
    var n: nat := if c < 0 then -c else c;
    var body := CentsBody(n);
    assert body[0] == NatDigits(n / 100)[0];
    CentsBodyWhole(n, c < 0, c < 0);
    if c < 0 {
      assert ("-" + body)[1..] == body;
    }
  }

  /** `x.ToString("F2")`: the value rounded to whole cents, written with two decimals. */
  function FormatF2(x: real): string {
    CentsText(Cents(x))
  }

  /** What `ToString("F2")` displays, `decimal.TryParse` reads back as the value rounded to
      whole cents: formatting loses only the digits beyond the cents. */
  lemma FormatF2ParsesBack(x: real)
    ensures ParseDecimal(FormatF2(x)) == Some(Cents(x) as real / 100.0)
  {
    CentsTextParsesBack(Cents(x));
  }
}
