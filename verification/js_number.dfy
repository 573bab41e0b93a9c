/**
 * JavaScript's `parseFloat`, `parseInt` (no radix argument) and `Math.round`,
 * on exact numbers. Both parsers skip leading white space and read the
 * LONGEST numeric prefix, ignoring whatever follows ("12abc" gives 12);
 * `parseInt` switches to hexadecimal after a "0x" / "0X" prefix. A missing
 * numeric prefix is `NaN`, written `None` here.
 */
module JsNumber {
  import opened Wrappers
  import JsString

  /** A digit of base 10, or of base 16 when `hex`. */
  predicate IsDigitIn(c: char, hex: bool) {
    ('0' <= c <= '9') || (hex && (('a' <= c <= 'f') || ('A' <= c <= 'F')))
  }

  function Base(hex: bool): nat {
    if hex then 16 else 10
  }

  function DigitOf(c: char, hex: bool): (d: nat)
    requires IsDigitIn(c, hex)
    ensures d < Base(hex)
  {
    if '0' <= c <= '9' then (c as int) - ('0' as int)
    else if 'a' <= c <= 'f' then (c as int) - ('a' as int) + 10
    else (c as int) - ('A' as int) + 10
  }

  predicate AllDigits(s: string, hex: bool) {
    forall k :: 0 <= k < |s| ==> IsDigitIn(s[k], hex)
  }

  /** The number a digit string denotes, most significant digit first. */
  function ValueIn(s: string, hex: bool): nat
    requires AllDigits(s, hex)
  {
    if s == [] then 0 else ValueIn(s[..|s| - 1], hex) * Base(hex) + DigitOf(s[|s| - 1], hex)
  }

  /** The end of the longest run of digits that starts at `i`. */
  function RunEnd(s: string, i: nat, hex: bool): (j: nat)
    requires i <= |s|
    ensures i <= j <= |s|
    ensures forall k :: i <= k < j ==> IsDigitIn(s[k], hex)
    ensures j == |s| || !IsDigitIn(s[j], hex)
    decreases |s| - i
  {
    if i < |s| && IsDigitIn(s[i], hex) then RunEnd(s, i + 1, hex) else i
  }

  /** The run found by RunEnd is the only one ending at a non-digit. */
  lemma RunEndIs(s: string, i: nat, j: nat, hex: bool)
    requires i <= j <= |s|
    requires forall k :: i <= k < j ==> IsDigitIn(s[k], hex)
    requires j == |s| || !IsDigitIn(s[j], hex)
    ensures RunEnd(s, i, hex) == j
  {
  }

  /** A finite decimal: (-1)^negative * mantissa * 10^exponent. The sign is
      kept apart so that "-0" stays distinguishable, as in JavaScript. */
  datatype Decimal = Decimal(negative: bool, mantissa: nat, exponent: int)

  /** The decimal is strictly below zero (`-0` is not). */
  predicate IsBelowZero(d: Decimal) {
    d.negative && d.mantissa > 0
  }

  function Pow10(n: nat): (p: nat)
    ensures p >= 1
  {
    if n == 0 then 1 else 10 * Pow10(n - 1)
  }

  /** The exponent part (`e`/`E`, optional sign, digits) starting at `i`;
      0 when there is none or it has no digit. */
  function ExponentAt(t: string, i: nat): int
    requires i <= |t|
  {
    if i < |t| && (t[i] == 'e' || t[i] == 'E') then
      var signed := i + 1 < |t| && (t[i + 1] == '+' || t[i + 1] == '-');
      var d := if signed then i + 2 else i + 1;
      var e := RunEnd(t, d, false);
      if e == d then 0
      else
        var v: int := ValueIn(t[d..e], false);
        if signed && t[i + 1] == '-' then -v else v
    else 0
  }

  /** `parseFloat(s)`: leading white space, an optional sign, digits with an
      optional '.' and fraction (at least one digit in all), an optional
      exponent; whatever follows the longest such prefix is ignored. */
  function ParseFloat(s: string): Option<Decimal>
  {
    ParseFloatTrimmed(JsString.TrimStart(s))
  }

  /** A number read by `parseFloat` is negative exactly when the first
      non-blank character is a minus sign. */
  lemma ParseFloatSign(s: string)
    ensures var t := JsString.TrimStart(s);
      ParseFloat(s).Some? ==> t != [] && (ParseFloat(s).value.negative <==> t[0] == '-')
  {
  }

  /** `parseFloat` once the leading white space is gone. */
  function ParseFloatTrimmed(t: string): Option<Decimal>
  {
    var signed := |t| > 0 && (t[0] == '+' || t[0] == '-');
    var i := if signed then 1 else 0;
    var j := RunEnd(t, i, false);
    var f := if j < |t| && t[j] == '.' then j + 1 else j;
    var g := RunEnd(t, f, false);
    var digits := t[i..j] + t[f..g];
    assert AllDigits(digits, false) by {
      forall k | 0 <= k < |digits|
        ensures IsDigitIn(digits[k], false)
      {
        if k < j - i { assert digits[k] == t[i + k]; } else { assert digits[k] == t[f + k - (j - i)]; }
      }
    }
    if j == i && g == f then None
    else Some(Decimal(signed && t[0] == '-', ValueIn(digits, false), ExponentAt(t, g) - (g - f)))
  }

  /** `parseInt(s)` with no radix: leading white space, an optional sign, a
      "0x"/"0X" prefix selecting base 16, then the longest run of digits. */
  function ParseInt(s: string): Option<int>
  {
    ParseIntTrimmed(JsString.TrimStart(s))
  }

  /** An integer is read only from text whose first non-blank character is a
      digit or a sign, and it is negative only after a minus sign. */
  lemma ParseIntLead(s: string)
    ensures var t := JsString.TrimStart(s);
      ParseInt(s).Some? ==> t != [] && (IsDigitIn(t[0], false) || t[0] == '+' || t[0] == '-')
    ensures var t := JsString.TrimStart(s);
      ParseInt(s).Some? && ParseInt(s).value < 0 ==> t[0] == '-'
  {
  }

  /** `parseInt` once the leading white space is gone. */
  function ParseIntTrimmed(t: string): Option<int>
  {
    var signed := |t| > 0 && (t[0] == '+' || t[0] == '-');
    var i := if signed then 1 else 0;
    var hex := i + 1 < |t| && t[i] == '0' && (t[i + 1] == 'x' || t[i + 1] == 'X');
    var d := if hex then i + 2 else i;
    var e := RunEnd(t, d, hex);
    if e == d then None
    else
      var v: int := ValueIn(t[d..e], hex);
      Some(if signed && t[0] == '-' then -v else v)
  }

  /** The integer nearest to x / den, a half rounded up: floor(x / den + 1/2). */
  function RoundHalfUp(x: nat, den: nat): (c: nat)
    requires den > 0
    ensures c * (2 * den) <= 2 * x + den < (c + 1) * (2 * den)
  {
    DivBounds(2 * x + den, 2 * den);
    (2 * x + den) / (2 * den)
  }

  lemma DivBounds(x: nat, m: nat)
    requires m > 0
    ensures (x / m) * m <= x < (x / m + 1) * m
  {
    assert x == (x / m) * m + x % m;
  }

  /** `Math.round(x * 100)` for the magnitude x of `d`: exact when x has at
      most two fraction digits, otherwise the nearest integer, a half up. */
  function RoundedHundredths(d: Decimal): (c: nat)
    ensures d.exponent + 2 >= 0 ==> c == d.mantissa * Pow10(d.exponent + 2)
    ensures d.exponent + 2 < 0 ==> c == RoundHalfUp(d.mantissa, Pow10(-(d.exponent + 2)))
  {
    var e := d.exponent + 2;
    if e >= 0 then d.mantissa * Pow10(e) else RoundHalfUp(d.mantissa, Pow10(-e))
  }

  function DigitChar(d: nat): (c: char)
    requires d < 10
    ensures IsDigitIn(c, false) && DigitOf(c, false) == d
  {
    ('0' as int + d) as char
  }

  /** The decimal numeral of `n` (what `String(n)` gives for a natural number). */
  function Render(n: nat): (s: string)
    ensures |s| > 0 && AllDigits(s, false)
    ensures s[0] == '0' ==> n == 0
  {
    if n < 10 then [DigitChar(n)] else Render(n / 10) + [DigitChar(n % 10)]
  }

  /** Reading back a rendered numeral gives the number. */
  lemma {:induction false} RenderValue(n: nat)
    ensures ValueIn(Render(n), false) == n
  {
    if n >= 10 {
      var s := Render(n);
      assert s[..|s| - 1] == Render(n / 10);
      RenderValue(n / 10);
    }
  }

  lemma TrimStartKeeps(s: string)
    requires s != [] && IsDigitIn(s[0], false)
    ensures JsString.TrimStart(s) == s
  {
    assert !JsString.IsWhitespace(s[0]);
  }

  /** Without a digit, a sign or a '.' where the number should start,
      `parseFloat` gives `NaN`. */
  lemma ParseFloatNeedsDigit(s: string)
    requires var t := JsString.TrimStart(s);
      t == [] || (!IsDigitIn(t[0], false) && t[0] != '+' && t[0] != '-' && t[0] != '.')
    ensures ParseFloat(s) == None
  {
    var t := JsString.TrimStart(s);
    if t != [] {
      assert RunEnd(t, 0, false) == 0;
    }
  }

  /** `parseInt` reads a rendered natural number back, whatever non-digit text
      follows it, except that "0" followed by 'x' or 'X' starts a hexadecimal
      numeral. */
  lemma ParseIntRender(n: nat, tail: string)
    requires tail == [] || !IsDigitIn(tail[0], false)
    requires n == 0 ==> tail == [] || (tail[0] != 'x' && tail[0] != 'X')
    ensures ParseInt(Render(n) + tail) == Some(n)
  {
    var r := Render(n);
    var s := r + tail;
    assert s[0] == r[0];
    TrimStartKeeps(s);
    assert !(s[0] == '+' || s[0] == '-');
    assert !(1 < |s| && s[0] == '0' && (s[1] == 'x' || s[1] == 'X')) by {
      if s[0] == '0' && 1 < |s| {
        assert |r| == 1;
        assert s[1] == tail[0];
      }
    }
    assert s[0..|r|] == r;
    assert RunEnd(s, 0, false) == |r| by {
      assert forall k :: 0 <= k < |r| ==> s[k] == r[k];
      assert |r| < |s| ==> s[|r|] == tail[0];
      RunEndIs(s, 0, |r|, false);
    }
    ParseIntUnsigned(s, |r|);
    RenderValue(n);
  }

  /** An unsigned decimal numeral at the start of `t`, not a "0x" prefix,
      running up to `e`, is what `parseInt` reads. */
  lemma ParseIntUnsigned(t: string, e: nat)
    requires 0 < e <= |t| && IsDigitIn(t[0], false)
    requires !(1 < |t| && t[0] == '0' && (t[1] == 'x' || t[1] == 'X'))
    requires RunEnd(t, 0, false) == e
    ensures ParseIntTrimmed(t) == Some(ValueIn(t[0..e], false) as int)
  {
    assert !(t[0] == '+' || t[0] == '-');
  }

  /** `parseFloat` reads "units.hh" (two fraction digits) as units * 100 + hh
      hundredths. */
  lemma ParseFloatFixedPoint(units: nat, hundredths: nat)
    requires hundredths < 100
    ensures ParseFloat(Render(units) + "." + [DigitChar(hundredths / 10), DigitChar(hundredths % 10)])
            == Some(Decimal(false, units * 100 + hundredths, -2))
  {
    var r := Render(units);
    var two := [DigitChar(hundredths / 10), DigitChar(hundredths % 10)];
    var s := r + "." + two;
    assert s[0] == r[0];
    TrimStartKeeps(s);
    ParseFloatDigitsDotDigits(r, two);
    assert ValueIn(r + two, false) == units * 100 + hundredths by {
      DigitsValueTwo(r, two);
      RenderValue(units);
    }
  }

  /** `parseFloat` on "digits.digits" with no sign and no exponent. */
  lemma ParseFloatDigitsDotDigits(r: string, two: string)
    requires |r| > 0 && AllDigits(r, false) && AllDigits(two, false)
    ensures AllDigits(r + two, false)
    ensures ParseFloatTrimmed(r + "." + two) == Some(Decimal(false, ValueIn(r + two, false), -|two|))
  {
    var s := r + "." + two;
    DigitsDotDigitsRuns(r, two);
    assert s[0..|r|] + s[|r| + 1..|s|] == r + two;
    ParseFloatUnsigned(s, |r|, |s|);
  }

  /** Where the runs of digits of "digits.digits" end. */
  lemma DigitsDotDigitsRuns(r: string, two: string)
    requires |r| > 0 && AllDigits(r, false) && AllDigits(two, false)
    ensures var s := r + "." + two;
      && IsDigitIn(s[0], false) && s[|r|] == '.'
      && s[0..|r|] == r && s[|r| + 1..|s|] == two
      && RunEnd(s, 0, false) == |r| && RunEnd(s, |r| + 1, false) == |s|
      && ExponentAt(s, |s|) == 0
  {
    var s := r + "." + two;
    assert s[0..|r|] == r;
    assert s[|r| + 1..|s|] == two;
    assert RunEnd(s, 0, false) == |r| by {
      assert forall k :: 0 <= k < |r| ==> s[k] == r[k];
      RunEndIs(s, 0, |r|, false);
    }
    assert RunEnd(s, |r| + 1, false) == |s| by {
      assert forall k :: |r| + 1 <= k < |s| ==> s[k] == two[k - |r| - 1];
      RunEndIs(s, |r| + 1, |s|, false);
    }
  }

  /** An unsigned "digits.digits" numeral filling `t`, the point at `j`, is
      what `parseFloat` reads. */
  lemma ParseFloatUnsigned(t: string, j: nat, g: nat)
    requires j < |t| && IsDigitIn(t[0], false) && t[j] == '.'
    requires RunEnd(t, 0, false) == j && RunEnd(t, j + 1, false) == g && ExponentAt(t, g) == 0
    ensures ParseFloatTrimmed(t) == Some(Decimal(false, ValueIn(t[0..j] + t[j + 1..g], false), -(g - j - 1)))
  {
    assert !(t[0] == '+' || t[0] == '-');
  }

  /** Appending two digits multiplies by a hundred and adds them. */
  lemma DigitsValueTwo(r: string, two: string)
    requires AllDigits(r, false) && |two| == 2 && AllDigits(two, false)
    ensures AllDigits(r + two, false)
    ensures ValueIn(r + two, false) == ValueIn(r, false) * 100 + DigitOf(two[0], false) * 10 + DigitOf(two[1], false)
  {
    var w := r + two;
    assert w[..|w| - 1] == r + [two[0]];
    assert (r + [two[0]])[..|r|] == r;
  }
}
