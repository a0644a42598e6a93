/**
 * Decimal integers as the page reads them from form fields: the
 * string-to-number conversion that `formData.age <= 0` makes on the age of a
 * surrendered pet, `parseInt(s)` for the chosen pet's id, and the
 * number-to-string conversion that writes the ids into the pet selector.
 * Values are unbounded integers, where the page has double-precision
 * numbers: the two agree on integers of magnitude below 2^53.
 */
module Numbers {
  import opened Wrappers
  import opened Text

  function DigitValue(c: char): (d: nat)
    requires IsDigit(c)
    ensures d < 10
  {
    c as int - '0' as int
  }

  function DigitChar(d: nat): (c: char)
    requires d < 10
    ensures IsDigit(c) && DigitValue(c) == d
  {
    ('0' as int + d) as char
  }

  /** The value of a string of decimal digits, most significant digit first. */
  function DigitsValue(s: string): nat
    requires AllDigits(s)
  {
    if s == [] then 0 else DigitsValue(s[..|s| - 1]) * 10 + DigitValue(s[|s| - 1])
  }

  /** The decimal digits of `n`, without leading zeros. */
  function NatToString(n: nat): (s: string)
    ensures |s| > 0 && AllDigits(s)
    ensures s[0] == '0' ==> n == 0
  {
    if n < 10 then [DigitChar(n)] else NatToString(n / 10) + [DigitChar(n % 10)]
  }

  /** `String(n)` for an integer `n`, which for a double-precision number
      is plain decimal notation only while |n| < 10^21 (from there on it is
      exponent notation, such as "1e+21"). */
  function IntToString(n: int): (s: string)
    ensures |s| > 0
    ensures n >= 0 ==> AllDigits(s)
    ensures n < 0 ==> s[0] == '-' && |s| > 1 && AllDigits(s[1..])
  {
    if n < 0 then
      var d := NatToString(-n);
      assert ("-" + d)[1..] == d;
      "-" + d
    else NatToString(n)
  }

  /** The value of a non-empty all-digit string; `None` for anything else. */
  function UnsignedValue(s: string): (r: Option<nat>)
    ensures r.Some? <==> |s| > 0 && AllDigits(s)
  {
    if |s| > 0 && AllDigits(s) then Some(DigitsValue(s)) else None
  }

  /** The notation `[+-]?\d+`. */
  predicate IsSignedDigits(s: string) {
    |s| > 0 && ((s[0] == '-' || s[0] == '+') ==> |s| > 1 && AllDigits(s[1..]))
            && (!(s[0] == '-' || s[0] == '+') ==> AllDigits(s))
  }

  /** The string-to-number conversion on a string already trimmed, for the
      notation `[+-]?\d+`; `None` stands for every other string (see the
      README for what that leaves out). */
  function ParseDecimal(s: string): (r: Option<int>)
    ensures r.Some? <==> IsSignedDigits(s)
  {
    if |s| > 0 && (s[0] == '-' || s[0] == '+') then
      match UnsignedValue(s[1..])
      case Some(n) => var v: int := if s[0] == '-' then -(n as int) else n; Some(v)
      case None => None
    else
      match UnsignedValue(s)
      case Some(n) => Some(n)
      case None => None
  }

  /** The longest prefix of `s` made of digits. */
  function LeadingDigits(s: string): (r: string)
    ensures |r| <= |s| && r == s[..|r|] && AllDigits(r)
    ensures |r| < |s| ==> !IsDigit(s[|r|])
  {
    if |s| > 0 && IsDigit(s[0]) then [s[0]] + LeadingDigits(s[1..]) else []
  }

  /** `parseInt(s)` in base ten: leading white space is skipped, then the
      signed digit run is read; `None` (`NaN`) exactly when no digit follows
      the white space and the sign. Digit runs are read exactly, where the
      page rounds runs worth 2^53 or more to a double. */
  function ParseIntPrefix(s: string): (r: Option<int>)
    ensures var t := TrimStart(s);
            var u := if |t| > 0 && (t[0] == '-' || t[0] == '+') then t[1..] else t;
            r.None? <==> u == [] || !IsDigit(u[0])
  {
    var t := TrimStart(s);
    var u := if |t| > 0 && (t[0] == '-' || t[0] == '+') then t[1..] else t;
    assert |u| > 0 && IsDigit(u[0]) ==> LeadingDigits(u) != [];
    ReadSignedDigits(t)
  }

  /** An optional sign, then the longest run of digits; `None` (`NaN`) when
      that run is empty. */
  function ReadSignedDigits(t: string): Option<int> {
    var signed := |t| > 0 && (t[0] == '-' || t[0] == '+');
    var digits := LeadingDigits(if signed then t[1..] else t);
    if digits == [] then None
    else
      var v: int := if signed && t[0] == '-' then -(DigitsValue(digits) as int) else DigitsValue(digits);
      Some(v)
  }

  // ---------------------------------------------------------------------------
  // Round trips

  lemma {:induction false} DigitsValueOfNatToString(n: nat)
    ensures DigitsValue(NatToString(n)) == n
  {
    if n >= 10 {
      var s := NatToString(n / 10) + [DigitChar(n % 10)];
      assert s[..|s| - 1] == NatToString(n / 10);
      DigitsValueOfNatToString(n / 10);
    }
  }

  /** Reading back the decimal text of any integer gives that integer. */
  lemma ParseDecimalRoundTrip(n: int)
    ensures ParseDecimal(IntToString(n)) == Some(n)
  {
    var s := IntToString(n);
    if n < 0 {
      var d := NatToString(-n);
      assert s == "-" + d && s[1..] == d;
      DigitsValueOfNatToString(-n);
      assert UnsignedValue(d) == Some(-n);
    } else {
      DigitsValueOfNatToString(n);
      assert UnsignedValue(s) == Some(n);
    }
  }

  /** A string of digits is its own leading-digit run when nothing digit-like follows. */
  lemma {:induction false} LeadingDigitsOfDigits(d: string, rest: string)
    requires AllDigits(d)
    requires rest == [] || !IsDigit(rest[0])
    ensures LeadingDigits(d + rest) == d
  {
    if d != [] {
      assert (d + rest)[1..] == d[1..] + rest;
      LeadingDigitsOfDigits(d[1..], rest);
    }
  }

  /** `parseInt` reads back the number `String(n)` wrote, whatever
      non-digit text follows it. */
  lemma ParseIntPrefixReadsLeading(n: int, rest: string)
    requires rest == [] || !IsDigit(rest[0])
    ensures ParseIntPrefix(IntToString(n) + rest) == Some(n)
  {
    var s := IntToString(n) + rest;
    assert s[0] == IntToString(n)[0];
    NoLeadingWhitespace(s);
    ReadSignedDigitsOfIntToString(n, rest);
  }

  lemma ReadSignedDigitsOfIntToString(n: int, rest: string)
    requires rest == [] || !IsDigit(rest[0])
    ensures var r := ReadSignedDigits(IntToString(n) + rest); r.Some? && r.value == n
  {
    if n < 0 {
      var d := NatToString(-n);
      assert IntToString(n) == "-" + d;
      assert IntToString(n) + rest == "-" + (d + rest);
      ReadDigitsAfterSign('-', d, rest);
      DigitsValueOfNatToString(-n);
    } else {
      var d := NatToString(n);
      assert IntToString(n) == d;
      ReadUnsignedDigits(d, rest);
      DigitsValueOfNatToString(n);
    }
  }

  lemma ReadDigitsAfterSign(sign: char, d: string, rest: string)
    requires sign == '-' || sign == '+'
    requires |d| > 0 && AllDigits(d) && (rest == [] || !IsDigit(rest[0]))
    ensures var r := ReadSignedDigits([sign] + (d + rest));
            r.Some? && r.value == if sign == '-' then -(DigitsValue(d) as int) else DigitsValue(d)
  {
    var t := [sign] + (d + rest);
    assert t[0] == sign && t[1..] == d + rest;
    LeadingDigitsOfDigits(d, rest);
  }

  lemma ReadUnsignedDigits(d: string, rest: string)
    requires |d| > 0 && AllDigits(d) && (rest == [] || !IsDigit(rest[0]))
    ensures var r := ReadSignedDigits(d + rest); r.Some? && r.value == DigitsValue(d)
  {
    assert (d + rest)[0] == d[0] && IsDigit(d[0]);
    LeadingDigitsOfDigits(d, rest);
  }

  lemma NoLeadingWhitespace(s: string)
    requires |s| > 0 && (IsDigit(s[0]) || s[0] == '-')
    ensures TrimStart(s) == s
  {
    assert !IsWhitespace(s[0]);
  }

}
