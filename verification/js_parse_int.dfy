/** JavaScript's global `parseInt(s)` without a radix argument, as used to
    turn a route parameter into a numeric quote id. `None` stands for `NaN`. */
module JsParseInt {
  import opened Results
  import opened JsStrings

  /** Value of a digit character in bases up to 36 ('0'-'9', then 'a'-'z' in either case). */
  function DigitValue(c: char): (d: Option<nat>)
    ensures d.Some? ==> d.value < 36
  {
    if '0' <= c <= '9' then Some(c as int - '0' as int)
    else if 'a' <= c <= 'z' then Some(c as int - 'a' as int + 10)
    else if 'A' <= c <= 'Z' then Some(c as int - 'A' as int + 10)
    else None
  }

  predicate IsDigitIn(c: char, radix: nat) {
    DigitValue(c).Some? && DigitValue(c).value < radix
  }

  /** Length of the longest prefix of `s` made of digits of the radix. */
  function DigitPrefixLength(s: string, radix: nat): (n: nat)
    ensures n <= |s|
    ensures forall i :: 0 <= i < n ==> IsDigitIn(s[i], radix)
    ensures n < |s| ==> !IsDigitIn(s[n], radix)
    decreases |s|
  {
    if |s| > 0 && IsDigitIn(s[0], radix) then 1 + DigitPrefixLength(s[1..], radix) else 0
  }

  /** Positional value of a string of digits, most significant first
      (applied only to runs of digits; anything else would count as 0). */
  function DigitsValue(ds: string, radix: nat): nat
    decreases |ds|
  {
    if |ds| == 0 then 0
    else
      var d := match DigitValue(ds[|ds| - 1]) case Some(v) => v case None => 0;
      DigitsValue(ds[..|ds| - 1], radix) * radix + d
  }

  /** `parseInt(s)`: skip leading white space, take an optional sign, a
      "0x"/"0X" prefix switches to base 16, then read the longest run of
      digits; no digits at all is `NaN`. */
  function ParseInt(s: string): (r: Option<int>)
    ensures r.Some? ==> exists i :: 0 <= i < |s| && '0' <= s[i] <= '9'
  {
    var t := TrimStart(s);
    var k := |s| - |t|;
    assert forall i :: 0 <= i < |t| ==> s[k + i] == t[i];
    ParseSigned(t)
  }

  /** The optional sign, then the unsigned part; a number needs a decimal
      digit right at the start or right after the sign. */
  function ParseSigned(t: string): (r: Option<int>)
    ensures r.Some? ==> (|t| > 0 && '0' <= t[0] <= '9') || (|t| > 1 && '0' <= t[1] <= '9')
  {
    if |t| > 0 && t[0] == '-' then
      match ParseUnsigned(t[1..])
      case None => None
      case Some(m) => Some(-(m as int))
    else if |t| > 0 && t[0] == '+' then ParseUnsigned(t[1..])
    else ParseUnsigned(t)
  }

  /** The digits after the sign: hexadecimal behind "0x"/"0X", decimal otherwise. */
  function ParseUnsigned(u: string): (r: Option<nat>)
    ensures r.Some? ==> |u| > 0 && '0' <= u[0] <= '9'
  {
    var hex := |u| >= 2 && u[0] == '0' && (u[1] == 'x' || u[1] == 'X');
    var radix := if hex then 16 else 10;
    var v := if hex then u[2..] else u;
    var n := DigitPrefixLength(v, radix);
    if n == 0 then None else Some(DigitsValue(v[..n], radix))
  }

  // ------------------------------------------------ decimal rendering

  function DigitChar(d: nat): (c: char)
    requires d < 10
    ensures IsDigitIn(c, 10) && DigitValue(c) == Some(d)
  {
    ('0' as int + d) as char
  }

  /** `String(n)` for a non-negative integer: its shortest decimal digits. */
  function DecimalString(n: nat): (s: string)
    ensures |s| >= 1
    ensures forall i :: 0 <= i < |s| ==> '0' <= s[i] <= '9'
    decreases n
  {
    if n < 10 then [DigitChar(n)] else DecimalString(n / 10) + [DigitChar(n % 10)]
  }

  lemma {:induction false} DecimalDigitsValue(n: nat)
    ensures forall i :: 0 <= i < |DecimalString(n)| ==> IsDigitIn(DecimalString(n)[i], 10)
    ensures DigitsValue(DecimalString(n), 10) == n
    decreases n
  {
    var s := DecimalString(n);
    assert forall i :: 0 <= i < |s| ==> IsDigitIn(s[i], 10);
    if n >= 10 {
      DecimalDigitsValue(n / 10);
      assert s[..|s| - 1] == DecimalString(n / 10);
    }
  }

  /** Unsigned digits of `n` followed by a non-digit parse to `n`. */
  lemma ParseUnsignedDecimal(n: nat, suffix: string)
    requires |suffix| > 0 ==> !('0' <= suffix[0] <= '9') && suffix[0] != 'x' && suffix[0] != 'X'
    ensures ParseUnsigned(DecimalString(n) + suffix) == Some(n)
  {
    var ds := DecimalString(n);
    var s := ds + suffix;
    DecimalDigitsValue(n);
    var hex := |s| >= 2 && s[0] == '0' && (s[1] == 'x' || s[1] == 'X');
    assert !hex by {
      if |s| >= 2 {
        if |ds| == 1 {
          assert s[1] == suffix[0];
        } else {
          assert s[1] == ds[1];
        }
      }
    }
    DigitPrefixOfDigits(ds, suffix);
    assert s[..|ds|] == ds;
    assert ParseUnsigned(s) == Some(DigitsValue(s[..|ds|], 10));
  }

  lemma {:induction false} DigitPrefixOfDigits(ds: string, suffix: string)
    requires forall i :: 0 <= i < |ds| ==> IsDigitIn(ds[i], 10)
    requires |suffix| > 0 ==> !('0' <= suffix[0] <= '9')
    ensures DigitPrefixLength(ds + suffix, 10) == |ds|
    decreases |ds|
  {
    var s := ds + suffix;
    if |ds| > 0 {
      assert s[1..] == ds[1..] + suffix;
      DigitPrefixOfDigits(ds[1..], suffix);
    } else {
      assert s == suffix;
    }
  }

  /** Parsing text whose first characters are the decimal digits of `n`,
      followed by text that starts with neither a digit nor an 'x', yields
      `n`: trailing text such as "12abc" is ignored. (After a lone "0" an
      'x' would turn "0x5" into the hexadecimal 5.) */
  lemma ParseIntDecimalPrefix(n: nat, suffix: string)
    requires |suffix| > 0 ==> !('0' <= suffix[0] <= '9') && suffix[0] != 'x' && suffix[0] != 'X'
    ensures ParseInt(DecimalString(n) + suffix) == Some(n)
  {
    var s := DecimalString(n) + suffix;
    assert s[0] == DecimalString(n)[0];
    assert TrimStart(s) == s;
    ParseUnsignedDecimal(n, suffix);
  }

  /** The decimal rendering of a natural number parses back to it. */
  lemma ParseIntDecimalRoundTrip(n: nat)
    ensures ParseInt(DecimalString(n)) == Some(n)
  {
    ParseIntDecimalPrefix(n, "");
    assert DecimalString(n) + "" == DecimalString(n);
  }

  /** A leading minus sign negates the parsed value. */
  lemma ParseIntNegativeRoundTrip(n: nat)
    ensures ParseInt("-" + DecimalString(n)) == Some(-(n as int))
  {
    var ds := DecimalString(n);
    ParseUnsignedDecimal(n, "");
    assert ds + "" == ds;
    ParseIntMinus(ds, n);
  }

  /** Text starting with '-' parses to the negated value of what follows. */
  lemma ParseIntMinus(u: string, m: nat)
    requires ParseUnsigned(u) == Some(m)
    ensures ParseInt("-" + u) == Some(-(m as int))
  {
    var s := "-" + u;
    assert s[0] == '-' && !IsWhitespace(s[0]);
    assert SkipStart(s, 0) == 0;
    assert TrimStart(s) == s;
    assert s[1..] == u;
    assert ParseSigned(s) == Some(-(m as int));
  }

  /** Text without a decimal digit is `NaN`, whatever letters, signs or
      white space it holds ("abc", "NaN", "-x"). */
  lemma ParseIntNaN(s: string)
    requires forall i :: 0 <= i < |s| ==> !('0' <= s[i] <= '9')
    ensures ParseInt(s) == None
  {
  }


}
