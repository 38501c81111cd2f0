/** JavaScript's `parseInt(s, 10)`, `parseFloat(s)`, `Math.round` and the
    decimal rendering of integers in template strings, on exact numbers.
    `NaN` is `None`; a number is a real or one of the two infinities. */
module JsNumbers {
  import opened Wrappers
  import opened JsStrings

  datatype Number = Finite(value: real) | Infinite(negative: bool)

  /** The number has no fractional part (an infinity counts as whole). */
  predicate IsWhole(x: Number) {
    x.Finite? ==> x.value.Floor as real == x.value
  }

  /** `x >= bound` for a JavaScript number and a finite bound. */
  predicate AtLeast(x: Number, bound: real) {
    match x
    case Finite(v) => v >= bound
    case Infinite(negative) => !negative
  }

  predicate IsDigit(c: char) { '0' <= c <= '9' }

  predicate AllDigits(s: string) {
    forall i :: 0 <= i < |s| ==> IsDigit(s[i])
  }

  /** The longest prefix of `s` made of decimal digits. */
  function DigitPrefix(s: string): (r: string)
    ensures r <= s && AllDigits(r)
    ensures |r| < |s| ==> !IsDigit(s[|r|])
  {
    if |s| > 0 && IsDigit(s[0]) then [s[0]] + DigitPrefix(s[1..]) else []
  }

  /** The value of a run of decimal digits, most significant first. */
  function DigitsValue(ds: string): nat
    requires AllDigits(ds)
  {
    if ds == [] then 0
    else 10 * DigitsValue(ds[..|ds| - 1]) + (ds[|ds| - 1] as int - '0' as int)
  }

  function Pow10(n: nat): (r: nat)
    ensures r > 0
  {
    if n == 0 then 1 else 10 * Pow10(n - 1)
  }

  /** 10 raised to an integer power. */
  function Scale(e: int): (r: real)
    ensures r > 0.0
  {
    if e >= 0 then Pow10(e) as real else 1.0 / Pow10(-e) as real
  }

  /** Splits an optional leading `+` or `-` from `s`; the flag says "minus". */
  function SplitSign(s: string): (bool, string)
  {
    if |s| > 0 && (s[0] == '-' || s[0] == '+') then (s[0] == '-', s[1..]) else (false, s)
  }

  function Signed(negative: bool, n: nat): int {
    if negative then -(n as int) else n
  }

  /** `parseInt(s, 10)`: skip leading white space, accept one sign, then take
      the longest run of decimal digits; no digit at all gives `NaN`. */
  function ParseInt(s: string): Option<int>
  {
    var (negative, rest) := SplitSign(TrimStart(s));
    var digits := DigitPrefix(rest);
    if |digits| == 0 then None else Some(Signed(negative, DigitsValue(digits)))
  }

  /** The exponent of the longest `ExponentPart` (`e`/`E`, an optional sign,
      digits) at the start of `s`, or 0 when there is none. */
  function ExponentPrefix(s: string): int
  {
    if |s| > 0 && (s[0] == 'e' || s[0] == 'E') then
      var (negative, rest) := SplitSign(s[1..]);
      Signed(negative, DigitsValue(DigitPrefix(rest)))
    else 0
  }

  /** The digits before the point, the digits after it and the text after
      the mantissa of an unsigned decimal literal at the start of `u`. */
  datatype Mantissa = Mantissa(whole: string, fraction: string, rest: string)

  function ScanMantissa(u: string): (m: Mantissa)
    ensures AllDigits(m.whole) && AllDigits(m.fraction)
  {
    var whole := DigitPrefix(u);
    var (fraction, rest) := ScanFraction(u[|whole|..]);
    Mantissa(whole, fraction, rest)
  }

  /** The fraction digits after a leading `.` of `s` and the text after
      them; no point means no fraction. */
  function ScanFraction(s: string): (r: (string, string))
    ensures AllDigits(r.0)
  {
    if |s| > 0 && s[0] == '.' then
      var fraction := DigitPrefix(s[1..]);
      (fraction, s[1 + |fraction|..])
    else ("", s)
  }

  function MantissaValue(m: Mantissa): real
    requires AllDigits(m.whole) && AllDigits(m.fraction)
  {
    DigitsValue(m.whole) as real + DigitsValue(m.fraction) as real / Pow10(|m.fraction|) as real
  }

  /** `parseFloat(s)`: skip leading white space and read the longest prefix
      that is a `StrDecimalLiteral`: an optional sign, then `Infinity`, or
      digits with an optional `.` and fraction digits (at least one digit in
      all), then an optional exponent. No such prefix gives `NaN`. */
  function ParseFloat(s: string): Option<Number>
  {
    ParseDecimalLiteral(TrimStart(s))
  }

  /** The longest `StrDecimalLiteral` at the very start of `t`. */
  function ParseDecimalLiteral(t: string): Option<Number>
  {
    var (negative, u) := SplitSign(t);
    if "Infinity" <= u then Some(Infinite(negative))
    else
      var m := ScanMantissa(u);
      if |m.whole| == 0 && |m.fraction| == 0 then None
      else
        var magnitude := MantissaValue(m) * Scale(ExponentPrefix(m.rest));
        Some(Finite(if negative then -magnitude else magnitude))
  }

  /** `Math.round`: the nearest whole number, halves going up (toward +∞);
      the infinities are their own rounding. */
  function Round(x: Number): (r: Number)
    ensures IsWhole(r)
    ensures x.Infinite? ==> r == x
    ensures x.Finite? ==> r.Finite? && r.value - 0.5 <= x.value < r.value + 0.5
  {
    match x
    case Finite(v) => Finite((v + 0.5).Floor as real)
    case Infinite(_) => x
  }

  /** The rounding is the only whole number within half a unit below/above. */
  lemma RoundUnique(x: real, n: int)
    requires n as real - 0.5 <= x < n as real + 0.5
    ensures Round(Finite(x)) == Finite(n as real)
  {
    assert (x + 0.5).Floor == n;
  }

  function DigitChar(d: nat): (c: char)
    requires d < 10
    ensures IsDigit(c) && c as int - '0' as int == d
  {
    ('0' as int + d) as char
  }

  /** The decimal digits of `n`, without leading zeros. */
  function ShowNat(n: nat): (r: string)
    ensures |r| > 0 && AllDigits(r)
  {
    if n < 10 then [DigitChar(n)] else ShowNat(n / 10) + [DigitChar(n % 10)]
  }

  /** How JavaScript writes an integer into a string (`${n}`). */
  function ShowInt(n: int): (r: string)
    ensures |r| > 0 && !IsWhitespace(r[0]) && r[0] != '+'
  {
    if n < 0 then "-" + ShowNat(-n) else ShowNat(n)
  }

  lemma {:induction false} ShowNatValue(n: nat)
    ensures DigitsValue(ShowNat(n)) == n
    decreases n
  {
    if n >= 10 {
      var s := ShowNat(n);
      ShowNatValue(n / 10);
      assert s[..|s| - 1] == ShowNat(n / 10);
    }
  }

  lemma {:induction false} DigitPrefixOfDigits(ds: string, t: string)
    requires AllDigits(ds)
    requires t == [] || !IsDigit(t[0])
    ensures DigitPrefix(ds + t) == ds
  {
    if ds != [] {
      assert (ds + t)[1..] == ds[1..] + t;
      DigitPrefixOfDigits(ds[1..], t);
    }
  }

  lemma TrimStartPrefixed(s: string)
    requires |s| > 0 && !IsWhitespace(s[0])
    ensures TrimStart(s) == s
    ensures ParseFloat(s) == ParseDecimalLiteral(s)
  {
  }

  /** `parseInt` reads back every integer it is shown, whatever non-digit
      text follows it: `parseInt("12abc", 10) == 12`. */
  lemma ParseIntShowInt(n: int, t: string)
    requires t == [] || !IsDigit(t[0])
    ensures ParseInt(ShowInt(n) + t) == Some(n)
  {
    if n < 0 {
      ParseIntNegative(-n, t);
    } else {
      ParseIntNonNegative(n, t);
    }
  }

  lemma ParseIntNonNegative(m: nat, t: string)
    requires t == [] || !IsDigit(t[0])
    ensures ParseInt(ShowNat(m) + t) == Some(m)
  {
    var digits := ShowNat(m);
    var shown := digits + t;
    assert shown[0] == digits[0];
    assert TrimStart(shown) == shown;
    assert SplitSign(shown) == (false, digits + t);
    ShowNatValue(m);
    ParseIntOfSplit(shown, false, digits, t);
  }

  lemma ParseIntNegative(m: nat, t: string)
    requires t == [] || !IsDigit(t[0])
    ensures ParseInt("-" + ShowNat(m) + t) == Some(-(m as int))
  {
    var digits := ShowNat(m);
    var rest := digits + t;
    var shown := "-" + digits + t;
    assert shown == ['-'] + rest;
    TrimStartPrefixed(shown);
    assert SplitSign(shown) == (true, rest);
    ShowNatValue(m);
    ParseIntOfSplit(shown, true, digits, t);
  }

  /** `parseInt` of a text whose unsigned part is a digit run followed by a
      non-digit. */
  lemma ParseIntOfSplit(s: string, negative: bool, digits: string, t: string)
    requires |digits| > 0 && AllDigits(digits)
    requires t == [] || !IsDigit(t[0])
    requires SplitSign(TrimStart(s)) == (negative, digits + t)
    ensures ParseInt(s) == Some(Signed(negative, DigitsValue(digits)))
  {
    DigitPrefixOfDigits(digits, t);
  }

  /** Leading white space never changes what `parseInt` or `parseFloat` read. */
  lemma {:induction false} TrimStartSkipsWhitespace(w: string, s: string)
    requires AllWhitespace(w)
    ensures TrimStart(w + s) == TrimStart(s)
  {
    LeadingWhitespaceAppend(w, s);
    assert (w + s)[|w|..] == s;
    assert (w + s)[|w| + LeadingWhitespace(s)..] == s[LeadingWhitespace(s)..];
  }

  lemma {:induction false} LeadingWhitespaceAppend(w: string, s: string)
    requires AllWhitespace(w)
    ensures LeadingWhitespace(w + s) == |w| + LeadingWhitespace(s)
  {
    if w == [] {
      assert w + s == s;
    } else {
      assert (w + s)[0] == w[0];
      assert (w + s)[1..] == w[1..] + s;
      LeadingWhitespaceAppend(w[1..], s);
    }
  }

  lemma ParseIntSkipsWhitespace(w: string, s: string)
    requires AllWhitespace(w)
    ensures ParseInt(w + s) == ParseInt(s)
  {
    TrimStartSkipsWhitespace(w, s);
  }

  lemma ParseFloatSkipsWhitespace(w: string, s: string)
    requires AllWhitespace(w)
    ensures ParseFloat(w + s) == ParseFloat(s)
  {
    TrimStartSkipsWhitespace(w, s);
  }

  /** A string without any digit is `NaN` to `parseInt`; in particular
      `parseInt(undefined, 10)`, which reads the text "undefined". */
  lemma ParseIntNoDigit(s: string)
    requires forall i :: 0 <= i < |s| ==> !IsDigit(s[i])
    ensures ParseInt(s) == None
  {
    var t := TrimStart(s);
    var rest := SplitSign(t).1;
    assert |rest| > 0 ==> rest[0] in s;
  }

  /** Text that does not start with `I` does not start with `Infinity`. */
  lemma NotInfinity(u: string)
    requires |u| > 0 ==> u[0] != 'I'
    ensures !("Infinity" <= u)
  {
    assert "Infinity"[0] == 'I';
  }

  /** A string with no digit whose unsigned part does not start with
      `Infinity` is `NaN` to `parseFloat`: `parseFloat("abc")`,
      `parseFloat("")`, `parseFloat(".")`, `parseFloat("Ice")`. */
  lemma ParseFloatNoDigit(s: string)
    requires forall i :: 0 <= i < |s| ==> !IsDigit(s[i])
    requires !("Infinity" <= SplitSign(TrimStart(s)).1)
    ensures ParseFloat(s) == None
  {
    var u := SplitSign(TrimStart(s)).1;
    assert |u| > 0 ==> u[0] in s;
    assert |u| > 1 ==> u[1] in s;
    ParseFloatNaNIff(s);
  }

  /** No `StrDecimalLiteral` can start `u`: it starts neither with
      `Infinity`, nor with a digit, nor with a point followed by a digit. */
  predicate NoLiteralStart(u: string) {
    && !("Infinity" <= u)
    && !(|u| > 0 && IsDigit(u[0]))
    && !(|u| > 1 && u[0] == '.' && IsDigit(u[1]))
  }

  /** `parseFloat` gives `NaN` exactly when, after the leading white space
      and an optional sign, no literal starts. */
  lemma ParseFloatNaNIff(s: string)
    ensures ParseFloat(s).None? <==> NoLiteralStart(SplitSign(TrimStart(s)).1)
  {
    var u := SplitSign(TrimStart(s)).1;
    if !("Infinity" <= u) {
      var whole := DigitPrefix(u);
      assert |whole| == 0 <==> !(|u| > 0 && IsDigit(u[0]));
      if |whole| == 0 {
        assert u[|whole|..] == u;
        if |u| > 0 && u[0] == '.' {
          assert |DigitPrefix(u[1..])| == 0 <==> !(|u| > 1 && IsDigit(u[1]));
        }
      }
    }
  }

  /** `s` is white space `w`, an optional sign, a non-empty digit run and a
      tail `t` that does not continue the run. */
  ghost predicate IntegerText(s: string, w: string, sign: string, digits: string, t: string) {
    && s == w + sign + digits + t
    && AllWhitespace(w)
    && (sign == "" || sign == "-" || sign == "+")
    && |digits| > 0 && AllDigits(digits)
    && (t == [] || !IsDigit(t[0]))
  }

  lemma ParseIntOfText(s: string, w: string, sign: string, digits: string, t: string)
    requires IntegerText(s, w, sign, digits, t)
    ensures ParseInt(s) == Some(Signed(sign == "-", DigitsValue(digits)))
  {
    var rest := digits + t;
    var core := sign + rest;
    assert s == w + core;
    assert SplitSign(TrimStart(s)) == (sign == "-", rest) by {
      SignedDigitsUnpadded(sign, digits, t);
      TrimStartSkipsWhitespace(w, core);
    }
    ParseIntOfSplit(s, sign == "-", digits, t);
  }

  lemma SignedDigitsUnpadded(sign: string, digits: string, t: string)
    requires sign == "" || sign == "-" || sign == "+"
    requires |digits| > 0 && AllDigits(digits)
    ensures TrimStart(sign + digits + t) == sign + digits + t
    ensures SplitSign(sign + digits + t) == (sign == "-", digits + t)
  {
    var rest := digits + t;
    var core := sign + rest;
    assert rest[0] == digits[0];
    assert core == sign + digits + t;
    if sign == "" {
      assert core == rest;
    } else {
      assert core[0] == sign[0] && core[1..] == rest;
    }
    TrimStartPrefixed(core);
  }

  /** `parseInt(s, 10)` is `n` exactly when `s` is white space, an optional
      sign and a digit run worth `n` (with that sign), followed by text that
      does not start with a digit. */
  lemma ParseIntIff(s: string, n: int)
    ensures ParseInt(s) == Some(n) <==>
              exists w, sign, digits, t :: IntegerText(s, w, sign, digits, t)
                                           && n == Signed(sign == "-", DigitsValue(digits))
  {
    if w, sign, digits, t :| IntegerText(s, w, sign, digits, t)
                             && n == Signed(sign == "-", DigitsValue(digits)) {
      ParseIntOfText(s, w, sign, digits, t);
    }
    if ParseInt(s) == Some(n) {
      var w, sign, digits, t := IntegerTextOf(s);
      ParseIntOfText(s, w, sign, digits, t);
    }
  }

  /** The pieces `parseInt` reads from a text it does not find `NaN`. */
  lemma IntegerTextOf(s: string) returns (w: string, sign: string, digits: string, t: string)
    requires ParseInt(s).Some?
    ensures IntegerText(s, w, sign, digits, t)
  {
    var t0 := TrimStart(s);
    w := s[..LeadingWhitespace(s)];
    var rest := SplitSign(t0).1;
    sign := SignText(t0);
    digits := DigitPrefix(rest);
    t := rest[|digits|..];
    assert s == w + t0 && AllWhitespace(w);
    assert rest == digits + t && (t == [] || !IsDigit(t[0])) by {
      assert |t| > 0 ==> t[0] == rest[|digits|];
    }
    IntegerTextOfParts(s, w, t0, sign, rest, digits, t);
  }

  lemma IntegerTextOfParts(s: string, w: string, t0: string, sign: string, rest: string, digits: string, t: string)
    requires s == w + t0 && AllWhitespace(w)
    requires t0 == sign + rest && (sign == "" || sign == "-" || sign == "+")
    requires rest == digits + t && |digits| > 0 && AllDigits(digits) && (t == [] || !IsDigit(t[0]))
    ensures IntegerText(s, w, sign, digits, t)
  {
    assert s == w + sign + digits + t;
  }

  /** The sign that `SplitSign` takes off `t`, as text. */
  function SignText(t: string): (sign: string)
    ensures sign == "" || sign == "-" || sign == "+"
    ensures t == sign + SplitSign(t).1 && SplitSign(t).0 == (sign == "-")
  {
    if |t| > 0 && (t[0] == '-' || t[0] == '+') then [t[0]] else ""
  }

  /** The mantissa scan of `whole.fraction` followed by text that cannot
      extend it. */
  lemma ScanDecimal(whole: string, fraction: string, t: string)
    requires AllDigits(whole) && AllDigits(fraction)
    requires t == [] || !IsDigit(t[0])
    ensures ScanMantissa(whole + "." + fraction + t) == Mantissa(whole, fraction, t)
  {
    var afterWhole := "." + fraction + t;
    var s := whole + afterWhole;
    assert whole + "." + fraction + t == s;
    DigitPrefixOfDigits(whole, afterWhole);
    assert s[|whole|..] == afterWhole;
    ScanFractionOf(fraction, t);
  }

  lemma ScanFractionOf(fraction: string, t: string)
    requires AllDigits(fraction)
    requires t == [] || !IsDigit(t[0])
    ensures ScanFraction("." + fraction + t) == (fraction, t)
  {
    var s := "." + fraction + t;
    assert s[1..] == fraction + t;
    DigitPrefixOfDigits(fraction, t);
    assert s[1 + |fraction|..] == t;
  }

  /** The mantissa scan of a digit run followed by text that cannot extend it. */
  lemma ScanInteger(whole: string, t: string)
    requires AllDigits(whole)
    requires t == [] || !(IsDigit(t[0]) || t[0] == '.')
    ensures ScanMantissa(whole + t) == Mantissa(whole, "", t)
  {
    DigitPrefixOfDigits(whole, t);
    assert (whole + t)[|whole|..] == t;
  }

  /** An unsigned literal with no exponent has the value of its mantissa. */
  lemma PlainMantissa(u: string, m: Mantissa)
    requires AllDigits(m.whole) && AllDigits(m.fraction) && |m.whole| > 0
    requires !("Infinity" <= u) && SplitSign(u) == (false, u) && ScanMantissa(u) == m
    requires m.rest == [] || !(m.rest[0] == 'e' || m.rest[0] == 'E')
    ensures ParseDecimalLiteral(u) == Some(Finite(MantissaValue(m)))
  {
    assert ExponentPrefix(m.rest) == 0;
    assert Scale(0) == 1.0;
  }

  /** `parseFloat` reads a decimal `whole.fraction` exactly, whatever text
      follows that cannot extend the literal (a `%`, a space, ...). */
  lemma ParseFloatDecimal(whole: string, fraction: string, t: string)
    requires |whole| > 0 && AllDigits(whole) && AllDigits(fraction)
    requires t == [] || !(IsDigit(t[0]) || t[0] == 'e' || t[0] == 'E')
    ensures ParseFloat(whole + "." + fraction + t)
         == Some(Finite(MantissaValue(Mantissa(whole, fraction, t))))
  {
    var s := whole + "." + fraction + t;
    var m := Mantissa(whole, fraction, t);
    assert ParseFloat(s) == ParseDecimalLiteral(s)
        && SplitSign(s) == (false, s) && !("Infinity" <= s) by {
      assert s[0] == whole[0];
      StartsWithDigit(s, whole[0]);
    }
    assert ScanMantissa(s) == m by {
      ScanDecimal(whole, fraction, t);
    }
    PlainMantissa(s, m);
  }

  /** Text that starts with a digit has no white space, sign or `Infinity`
      in front. */
  lemma StartsWithDigit(s: string, c: char)
    requires |s| > 0 && s[0] == c && IsDigit(c)
    ensures TrimStart(s) == s && SplitSign(s) == (false, s) && !("Infinity" <= s)
    ensures ParseFloat(s) == ParseDecimalLiteral(s)
  {
    TrimStartPrefixed(s);
    NotInfinity(s);
  }

  /** `parseFloat` reads a run of digits exactly, whatever text follows
      that cannot extend the literal. */
  lemma ParseFloatDigits(digits: string, t: string)
    requires |digits| > 0 && AllDigits(digits)
    requires t == [] || !(IsDigit(t[0]) || t[0] == '.' || t[0] == 'e' || t[0] == 'E')
    ensures ParseFloat(digits + t) == Some(Finite(DigitsValue(digits) as real))
  {
    var s := digits + t;
    var m := Mantissa(digits, "", t);
    assert ParseDecimalLiteral(s) == Some(Finite(MantissaValue(m))) by {
      DigitsLiteral(digits, t);
    }
    assert ParseFloat(s) == ParseDecimalLiteral(s) by {
      assert s[0] == digits[0];
      StartsWithDigit(s, digits[0]);
    }
    WholeMantissa(digits, t);
  }

  lemma DigitsLiteral(digits: string, t: string)
    requires |digits| > 0 && AllDigits(digits)
    requires t == [] || !(IsDigit(t[0]) || t[0] == '.' || t[0] == 'e' || t[0] == 'E')
    ensures ParseDecimalLiteral(digits + t) == Some(Finite(MantissaValue(Mantissa(digits, "", t))))
  {
    var s := digits + t;
    assert s[0] == digits[0];
    StartsWithDigit(s, digits[0]);
    ScanInteger(digits, t);
    PlainMantissa(s, Mantissa(digits, "", t));
  }

  lemma WholeMantissa(digits: string, t: string)
    requires AllDigits(digits)
    ensures MantissaValue(Mantissa(digits, "", t)) == DigitsValue(digits) as real
  {
    assert DigitsValue("") == 0;
    assert Pow10(0) == 1;
  }

  /** `parseFloat` reads an integer exactly: `parseFloat("80") == 80` and
      `parseFloat("80%") == 80`. */
  lemma ParseFloatInteger(n: nat, t: string)
    requires t == [] || !(IsDigit(t[0]) || t[0] == '.' || t[0] == 'e' || t[0] == 'E')
    ensures ParseFloat(ShowNat(n) + t) == Some(Finite(n as real))
  {
    ParseFloatDigits(ShowNat(n), t);
    ShowNatValue(n);
  }
}
