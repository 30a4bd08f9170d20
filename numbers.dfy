/**
  The JavaScript number handling the sanitizer, the normalizer, the
  diagnostics and the matrix parser rely on, over exact rationals:

  - `Number(s)`: decimal literals with an optional sign, fraction and exponent,
    surrounding white space ignored, the empty string read as 0;
  - `x.toFixed(3)` followed by `Number.parseFloat` (rounding to thousandths,
    halves away from zero);
  - `toString()` of such a rounded value (shortest decimal form, no trailing zeros);
  - the plain-decimal test `/^-?\d+(?:\.\d+)?$/`.

  `None` stands for every value `Number.isFinite` rejects (NaN and the infinities).
 */
module Numbers {
  import opened Wrappers
  import Text

  predicate IsDigit(c: char) {
    '0' <= c <= '9'
  }

  function DigitValue(c: char): (d: nat)
    requires IsDigit(c)
    ensures d < 10
  {
    (c as int) - ('0' as int)
  }

  function Digit(d: nat): (c: char)
    requires d < 10
    ensures IsDigit(c) && DigitValue(c) == d
  {
    (('0' as int) + d) as char
  }

  predicate AllDigits(s: string) {
    forall i :: 0 <= i < |s| ==> IsDigit(s[i])
  }

  /** The value of a string of decimal digits, most significant digit first. */
  function DigitsValue(s: string): nat
    requires AllDigits(s)
  {
    if s == [] then 0 else 10 * DigitsValue(s[..|s| - 1]) + DigitValue(s[|s| - 1])
  }

  function Pow10(n: nat): (r: nat)
    ensures r >= 1
  {
    if n == 0 then 1 else 10 * Pow10(n - 1)
  }

  /** The decimal digits of `n` with no leading zero: `String(n)` for a non-negative integer. */
  function NatDigits(n: nat): (s: string)
    ensures s != [] && AllDigits(s) && DigitsValue(s) == n
    ensures s[0] == '0' ==> s == "0"
  {
    if n < 10 then [Digit(n)]
    else
      var p := NatDigits(n / 10);
      var s := p + [Digit(n % 10)];
      assert s[..|s| - 1] == p;
      s
  }

  /** Length of the longest prefix of `s` made of digits. */
  function DigitRun(s: string): (n: nat)
    ensures n <= |s| && AllDigits(s[..n]) && (n == |s| || !IsDigit(s[n]))
  {
    if s == [] || !IsDigit(s[0]) then 0
    else
      var n := 1 + DigitRun(s[1..]);
      assert s[..n] == [s[0]] + s[1..][..n - 1];
      n
  }

  lemma {:induction false} DigitRunOfDigits(d: string, r: string)
    requires AllDigits(d) && (r == [] || !IsDigit(r[0]))
    ensures DigitRun(d + r) == |d|
  {
    if d == [] {
      assert d + r == r;
    } else {
      assert (d + r)[0] == d[0] && (d + r)[1..] == d[1..] + r;
      DigitRunOfDigits(d[1..], r);
    }
  }

  /** A digit string followed by nothing: its run is all of it and nothing is left. */
  lemma DigitRunAll(d: string)
    requires AllDigits(d)
    ensures DigitRun(d) == |d| && d[..|d|] == d && d[|d|..] == []
  {
    DigitRunOfDigits(d, []);
    assert d + [] == d;
  }

  lemma DigitNotSpace(c: char)
    requires IsDigit(c)
    ensures !Text.IsSpace(c)
  {
  }

  // ---------------------------------------------------------------------------
  // Number(s)

  /** `Number(s)` when the result is finite, `None` otherwise. */
  function ParseNumber(s: string): Option<real> {
    var t := Text.Trim(s);
    if t == [] then Some(0.0) else ParseSigned(t)
  }

  function Negate(v: Option<real>): Option<real> {
    if v.Some? then Some(-v.value) else None
  }

  /** An optional `+` or `-` in front of an unsigned literal. */
  function ParseSigned(t: string): Option<real> {
    var signed := t != [] && (t[0] == '-' || t[0] == '+');
    var v := ParseUnsigned(if signed then t[1..] else t);
    if signed && t[0] == '-' then Negate(v) else v
  }

  /** Digits, an optional `.` with digits (at least one digit overall), an optional exponent. */
  function ParseUnsigned(t: string): Option<real> {
    var i := DigitRun(t);
    var point := i < |t| && t[i] == '.';
    var u := if point then t[i + 1..] else [];
    var f := DigitRun(u);
    var rest := if point then u[f..] else t[i..];
    if i + f == 0 then None
    else WithExponent(DigitsValue(t[..i]) as real + Fraction(u[..f]), rest)
  }

  /** The value of the digits after a decimal point. */
  function Fraction(f: string): (v: real)
    requires AllDigits(f)
    ensures 0.0 <= v < 1.0
  {
    if f == [] then 0.0 else (DigitValue(f[0]) as real + Fraction(f[1..])) / 10.0
  }

  /** `v` times ten to the power `n`. */
  function Scale10(v: real, n: nat): real {
    if n == 0 then v else 10.0 * Scale10(v, n - 1)
  }

  /** `v` divided by ten to the power `n`. */
  function Shrink10(v: real, n: nat): real {
    if n == 0 then v else Shrink10(v, n - 1) / 10.0
  }

  /** Applies an exponent part `e…`/`E…` (or nothing) to `v`; anything else is not a number. */
  function WithExponent(v: real, e: string): Option<real> {
    if e == [] then Some(v)
    else if e[0] != 'e' && e[0] != 'E' then None
    else
      var x := e[1..];
      var d := if x != [] && (x[0] == '-' || x[0] == '+') then x[1..] else x;
      if d == [] || !AllDigits(d) then None
      else if x[0] == '-' then Some(Shrink10(v, DigitsValue(d)))
      else Some(Scale10(v, DigitsValue(d)))
  }

  /** `Number` ignores surrounding white space. */
  lemma ParseNumberIgnoresSpace(s: string)
    ensures ParseNumber(s) == ParseNumber(Text.Trim(s))
  {
  }

  /** `Number("")` and `Number("   ")` are 0. */
  lemma ParseBlank(s: string)
    requires forall i :: 0 <= i < |s| ==> Text.IsSpace(s[i])
    ensures ParseNumber(s) == Some(0.0)
  {
  }

  // ---------------------------------------------------------------------------
  // toFixed(3), parseFloat and toString

  /** The integer number of thousandths `x.toFixed(3)` keeps: nearest, halves away from zero. */
  function Milli(x: real): (m: int)
    ensures x >= 0.0 ==> m as real - 0.5 <= 1000.0 * x < m as real + 0.5
    ensures x < 0.0 ==> m as real - 0.5 < 1000.0 * x <= m as real + 0.5
  {
    if x < 0.0 then -((-1000.0 * x + 0.5).Floor) else (1000.0 * x + 0.5).Floor
  }

  /** `Number.parseFloat(x.toFixed(3))` as an exact value. */
  function Round3(x: real): real {
    Milli(x) as real / 1000.0
  }

  /** Rounding to thousandths moves a value by at most half a thousandth. */
  lemma Round3Close(x: real)
    ensures -0.0005 <= Round3(x) - x <= 0.0005
  {
  }

  /** The thousandths of a non-negative value below one, after a point, trailing zeros dropped. */
  function FractionDigits(r: nat): string
    requires r < 1000
  {
    var d1, d2, d3 := r / 100, (r % 100) / 10, r % 10;
    if r == 0 then ""
    else if d2 == 0 && d3 == 0 then ['.', Digit(d1)]
    else if d3 == 0 then ['.', Digit(d1), Digit(d2)]
    else ['.', Digit(d1), Digit(d2), Digit(d3)]
  }

  /** `toString()` of the number `m / 1000`. */
  function FormatMilli(m: int): string {
    var a := if m < 0 then -m else m;
    (if m < 0 then "-" else "") + NatDigits(a / 1000) + FractionDigits(a % 1000)
  }

  /** The string a rounded number prints as: `parseFloat(x.toFixed(3)).toString()`. */
  function FormatRounded(x: real): string {
    FormatMilli(Milli(x))
  }

  lemma FractionDigitsValue(r: nat)
    requires r < 1000
    ensures var f := FractionDigits(r);
      (r == 0 ==> f == []) &&
      (r != 0 ==> |f| >= 2 && f[0] == '.' && AllDigits(f[1..]) &&
                  Fraction(f[1..]) == r as real / 1000.0)
  {
    var d1, d2, d3 := r / 100, (r % 100) / 10, r % 10;
    assert r == 100 * d1 + 10 * d2 + d3;
    var f := FractionDigits(r);
    if r != 0 {
      var u := f[1..];
      if d2 == 0 && d3 == 0 {
        assert u == [Digit(d1), Digit(d2), Digit(d3)][..1];
      } else if d3 == 0 {
        assert u == [Digit(d1), Digit(d2), Digit(d3)][..2];
      } else {
        assert u == [Digit(d1), Digit(d2), Digit(d3)][..3];
      }
      FractionOfDigits(d1, d2, d3, r, |u|);
    }
  }

  /** The first `n` of the three digits `d1 d2 d3`, read after a point, when the
      digits left out are zeros. */
  lemma FractionOfDigits(d1: nat, d2: nat, d3: nat, r: nat, n: nat)
    requires d1 < 10 && d2 < 10 && d3 < 10 && r == 100 * d1 + 10 * d2 + d3
    requires 1 <= n <= 3 && (n < 3 ==> d3 == 0) && (n < 2 ==> d2 == 0)
    ensures Fraction([Digit(d1), Digit(d2), Digit(d3)][..n]) == r as real / 1000.0
  {
    var u := [Digit(d1), Digit(d2), Digit(d3)][..n];
    var x1, x2, x3 := d1 as real, d2 as real, d3 as real;
    assert r as real == 100.0 * x1 + 10.0 * x2 + x3;
    assert u[0] == Digit(d1);
    if n == 1 {
      assert u[1..] == [];
    } else if n == 2 {
      assert u[1..] == [Digit(d2)] && u[1..][1..] == [];
      assert Fraction(u[1..]) == x2 / 10.0;
    } else {
      assert u[1..] == [Digit(d2), Digit(d3)];
      assert u[1..][1..] == [Digit(d3)] && u[1..][1..][1..] == [];
      assert Fraction(u[1..][1..]) == x3 / 10.0;
      assert Fraction(u[1..]) == (x2 + x3 / 10.0) / 10.0;
    }
  }

  /** Reading back the unsigned part of a printed value. */
  lemma ParseUnsignedFormat(a: nat)
    ensures ParseUnsigned(NatDigits(a / 1000) + FractionDigits(a % 1000)) == Some(a as real / 1000.0)
  {
    var d := NatDigits(a / 1000);
    var f := FractionDigits(a % 1000);
    var t := d + f;
    FractionDigitsValue(a % 1000);
    DigitRunOfDigits(d, f);
    assert t[..|d|] == d;
    if f == [] {
      assert t[|d|..] == [];
    } else {
      assert t[|d|] == '.';
      var u := t[|d| + 1..];
      assert u == f[1..];
      DigitRunAll(u);
    }
  }

  /** Printing a rounded value and reading it back gives that value. */
  lemma ParseFormatMilli(m: int)
    ensures ParseNumber(FormatMilli(m)) == Some(m as real / 1000.0)
  {
    var a := if m < 0 then -m else m;
    var u := NatDigits(a / 1000) + FractionDigits(a % 1000);
    var s := FormatMilli(m);
    FormatMilliTrimmed(m);
    ParseTrimmed(s);
    ParseUnsignedFormat(a);
    FormatMilliSign(m);
    ParseSignedOf(m, a, s, u);
  }

  /** The same, for a value known to be `m` thousandths. */
  lemma ParseFormatMilliIs(m: int, x: real)
    requires m as real / 1000.0 == x
    ensures ParseNumber(FormatMilli(m)) == Some(x)
  {
    assert Some(m as real / 1000.0) == Some(x);
    ParseFormatMilli(m);
  }

  lemma FormatMilliSign(m: int)
    ensures var a := if m < 0 then -m else m;
      var u := NatDigits(a / 1000) + FractionDigits(a % 1000);
      var s := FormatMilli(m);
      (m < 0 ==> s != [] && s[0] == '-' && s[1..] == u) &&
      (m >= 0 ==> s == u && IsDigit(u[0]))
  {
    var a := if m < 0 then -m else m;
    var d := NatDigits(a / 1000);
    var u := d + FractionDigits(a % 1000);
    assert u[0] == d[0];
  }

  lemma ParseSignedOf(m: int, a: nat, s: string, u: string)
    requires a == if m < 0 then -m else m
    requires ParseUnsigned(u) == Some(a as real / 1000.0)
    requires m < 0 ==> s != [] && s[0] == '-' && s[1..] == u
    requires m >= 0 ==> s == u && u != [] && IsDigit(u[0])
    ensures ParseSigned(s) == Some(m as real / 1000.0)
  {
    if m < 0 {
      ParseSignedMinus(s);
    } else {
      ParseSignedDigit(u);
    }
  }

  lemma ParseSignedMinus(s: string)
    requires s != [] && s[0] == '-'
    ensures ParseSigned(s) == Negate(ParseUnsigned(s[1..]))
  {
  }

  lemma ParseSignedDigit(u: string)
    requires u != [] && IsDigit(u[0])
    ensures ParseSigned(u) == ParseUnsigned(u)
  {
  }

  /** A printed number starts with a sign or a digit and ends with a digit. */
  lemma FormatMilliTrimmed(m: int)
    ensures FormatMilli(m) != [] && Text.Trimmed(FormatMilli(m))
  {
    var a := if m < 0 then -m else m;
    var d := NatDigits(a / 1000);
    var f := FractionDigits(a % 1000);
    FractionDigitsValue(a % 1000);
    var u := d + f;
    var s := FormatMilli(m);
    assert s == (if m < 0 then "-" else "") + u;
    assert u[0] == d[0];
    assert u[|u| - 1] == s[|s| - 1];
    if f != [] {
      assert u[|u| - 1] == f[1..][|f| - 2];
    }
    DigitNotSpace(u[0]);
    DigitNotSpace(u[|u| - 1]);
  }

  lemma ParseTrimmed(s: string)
    requires s != [] && Text.Trimmed(s)
    ensures ParseNumber(s) == ParseSigned(s)
  {
  }

  /** Rounding an already rounded value changes nothing. */
  lemma MilliOfMilli(m: int)
    ensures Milli(m as real / 1000.0) == m
  {
  }

  /** Rounding a number of thousandths prints those thousandths. */
  lemma FormatRoundedMilli(m: int)
    ensures FormatRounded(m as real / 1000.0) == FormatMilli(m)
  {
    MilliOfMilli(m);
  }

  /** A printed number of thousandths is a plain decimal that reads back as
      those thousandths and prints again the same way once rounded. */
  lemma FormatMilliSettles(m: int)
    ensures IsPlainDecimal(FormatMilli(m))
    ensures ParseNumber(FormatMilli(m)) == Some(m as real / 1000.0)
    ensures FormatRounded(m as real / 1000.0) == FormatMilli(m)
  {
    FormatMilliIsPlainDecimal(m);
    ParseFormatMilli(m);
    FormatRoundedMilli(m);
  }

  /** Distinct rounded values print differently. */
  lemma FormatMilliInjective(m: int, n: int)
    requires FormatMilli(m) == FormatMilli(n)
    ensures m == n
  {
    ParseFormatMilli(m);
    ParseFormatMilli(n);
  }

  // ---------------------------------------------------------------------------
  // /^-?\d+(?:\.\d+)?$/

  /** An optional minus, digits, and optionally a point followed by digits. */
  predicate IsPlainDecimal(s: string) {
    var t := if s != [] && s[0] == '-' then s[1..] else s;
    var i := DigitRun(t);
    i > 0 && (i == |t| || (t[i] == '.' && i + 1 < |t| && AllDigits(t[i + 1..])))
  }

  lemma FormatMilliIsPlainDecimal(m: int)
    ensures IsPlainDecimal(FormatMilli(m))
  {
    var a := if m < 0 then -m else m;
    var d := NatDigits(a / 1000);
    var f := FractionDigits(a % 1000);
    FractionDigitsValue(a % 1000);
    DigitRunOfDigits(d, f);
    var s := FormatMilli(m);
    if m < 0 {
      assert s[1..] == d + f;
    } else {
      assert s == d + f;
    }
    if f != [] {
      assert (d + f)[|d| + 1..] == f[1..];
    }
  }

  /** A plain decimal is made of digits, a minus and a point. */
  lemma PlainDecimalChars(s: string)
    requires IsPlainDecimal(s)
    ensures forall k :: 0 <= k < |s| ==> IsDigit(s[k]) || s[k] == '-' || s[k] == '.'
  {
    var t := if s != [] && s[0] == '-' then s[1..] else s;
    var i := DigitRun(t);
    forall k | 0 <= k < |t|
      ensures IsDigit(t[k]) || t[k] == '.'
    {
      if k < i {
        assert t[k] == t[..i][k];
      } else if k > i {
        assert t[k] == t[i + 1..][k - i - 1];
      }
    }
    forall k | 0 <= k < |s|
      ensures IsDigit(s[k]) || s[k] == '-' || s[k] == '.'
    {
      if s[0] == '-' && k > 0 {
        assert s[k] == t[k - 1];
      } else if s[0] != '-' {
        assert s[k] == t[k];
      }
    }
  }

  /** A plain decimal is always a finite number. */
  lemma PlainDecimalParses(s: string)
    requires IsPlainDecimal(s)
    ensures ParseNumber(s).Some?
  {
    var t := if s[0] == '-' then s[1..] else s;
    var i := DigitRun(t);
    assert IsDigit(t[0]);
    assert s[0] == '-' || s[0] == t[0];
    PlainDecimalEndsInDigit(t);
    assert s[|s| - 1] == t[|t| - 1];
    DigitNotSpace(t[|t| - 1]);
    if s[0] != '-' {
      DigitNotSpace(s[0]);
    }
    ParseTrimmed(s);
    if i < |t| {
      DigitRunAll(t[i + 1..]);
    } else {
      assert t[i..] == [];
    }
  }

  lemma PlainDecimalEndsInDigit(t: string)
    requires DigitRun(t) > 0
    requires DigitRun(t) == |t| || (t[DigitRun(t)] == '.' && DigitRun(t) + 1 < |t| && AllDigits(t[DigitRun(t) + 1..]))
    ensures IsDigit(t[|t| - 1])
  {
    var i := DigitRun(t);
    if i == |t| {
      assert t[..i][i - 1] == t[i - 1];
    } else {
      assert t[i + 1..][|t| - i - 2] == t[|t| - 1];
    }
  }

  /** Digits without sign, point or exponent read as their value. */
  lemma ParseDigits(d: string)
    requires d != [] && AllDigits(d)
    ensures ParseNumber(d) == Some(DigitsValue(d) as real)
  {
    DigitNotSpace(d[0]);
    DigitNotSpace(d[|d| - 1]);
    ParseTrimmed(d);
    assert d[0] != '-' && d[0] != '+';
    assert ParseSigned(d) == ParseUnsigned(d);
    DigitRunAll(d);
    assert Fraction([]) == 0.0;
    assert ParseUnsigned(d) == WithExponent(DigitsValue(d) as real + 0.0, []);
  }
}
