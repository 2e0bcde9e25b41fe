/** Decimal rendering of integers (Python `str(n)` / f-string `{n}`) and the
    parsing of a decimal string back into an integer (Python `int(s)`). */
module Numerals {
  import opened Wrappers
  import opened Text

  predicate IsDigit(c: char) {
    '0' <= c <= '9'
  }

  predicate AllDigits(s: string) {
    forall k :: 0 <= k < |s| ==> IsDigit(s[k])
  }

  function DigitChar(d: nat): (c: char)
    requires d < 10
    ensures IsDigit(c) && c as int - '0' as int == d
  {
    ('0' as int + d) as char
  }

  /** Python `str(n)` for `n >= 0`: digits only, never empty, no leading zero. */
  function NatToString(n: nat): (r: string)
    ensures |r| > 0 && AllDigits(r)
    ensures r[0] == '0' ==> n == 0
  {
    if n < 10 then [DigitChar(n)] else NatToString(n / 10) + [DigitChar(n % 10)]
  }

  /** Python `str(i)` for any integer. */
  function IntToString(i: int): (r: string)
    ensures |r| > 0
    ensures i < 0 <==> r[0] == '-'
  {
    if i < 0 then "-" + NatToString(-i) else NatToString(i)
  }

  /** The value of a string of decimal digits. */
  function DigitsValue(s: string): nat
    requires AllDigits(s)
  {
    if |s| == 0 then 0 else 10 * DigitsValue(s[..|s| - 1]) + (s[|s| - 1] as int - '0' as int)
  }

  lemma {:induction false} DigitsValueOfNatToString(n: nat)
    ensures DigitsValue(NatToString(n)) == n
  {
    if n >= 10 {
      var s := NatToString(n);
      assert s[..|s| - 1] == NatToString(n / 10);
      DigitsValueOfNatToString(n / 10);
    }
  }

  /** Rendering is injective, so two distinct numbers never print alike. */
  lemma NatToStringInjective(a: nat, b: nat)
    requires NatToString(a) == NatToString(b)
    ensures a == b
  {
    DigitsValueOfNatToString(a);
    DigitsValueOfNatToString(b);
  }

  /** Python `int(s)` for a `str` argument, restricted to ASCII digits: surrounding
      whitespace is ignored, one optional sign, then at least one digit;
      anything else is a `ValueError`, modelled as `None`. */
  function ParseInt(s: string): (r: Option<int>)
    ensures r.Some? ==> |Strip(s)| > 0
    ensures r.Some? <==> IsIntLiteral(Strip(s))
  {
    ParseSigned(Strip(s))
  }

  /** What `int()` accepts once the whitespace is stripped: digits, or a sign
      followed by digits. */
  predicate IsIntLiteral(t: string) {
    || (|t| > 0 && AllDigits(t))
    || (|t| > 1 && (t[0] == '+' || t[0] == '-') && AllDigits(t[1..]))
  }

  predicate AllSpace(s: string) {
    forall k :: 0 <= k < |s| ==> IsSpace(s[k])
  }

  /** Whitespace around a text that neither starts nor ends with whitespace is
      exactly what stripping removes. */
  lemma {:induction false} StripPadded(s: string, lead: string, core: string, trail: string)
    requires s == lead + core + trail
    requires AllSpace(lead) && AllSpace(trail)
    requires |core| > 0 && !IsSpace(core[0]) && !IsSpace(core[|core| - 1])
    ensures Strip(s) == core
  {
    var r := Strip(s);
    var n := LeadingSpaces(s);
    assert s[|lead|] == core[0];
    assert s[|lead| + |core| - 1] == core[|core| - 1];
    assert n == |lead|;
    assert r != "" by {
      assert !IsSpace(s[|lead|]);
    }
    assert n + |r| == |lead| + |core|;
    assert s[|lead|..|lead| + |core|] == core;
  }

  /** `int(s)` accepts whitespace, an optional sign and digits, and yields the
      signed decimal value: `int(" +07 ") == 7`. */
  lemma {:induction false} ParseIntAccepts(lead: string, sign: string, digits: string, trail: string)
    requires AllSpace(lead) && AllSpace(trail)
    requires sign == "" || sign == "+" || sign == "-"
    requires |digits| > 0 && AllDigits(digits)
    ensures ParseInt(lead + sign + digits + trail)
         == Some(if sign == "-" then -(DigitsValue(digits) as int) else DigitsValue(digits))
  {
    var core := sign + digits;
    var x := lead + sign + digits + trail;
    LiteralUnspaced(sign, digits);
    assert x == lead + core + trail;
    StripPadded(x, lead, core, trail);
    ParseSignedLiteral(sign, digits);
  }

  lemma {:induction false} LiteralUnspaced(sign: string, digits: string)
    requires sign == "" || sign == "+" || sign == "-"
    requires |digits| > 0 && AllDigits(digits)
    ensures var core := sign + digits; !IsSpace(core[0]) && !IsSpace(core[|core| - 1])
  {
    assert IsDigit(digits[0]) && IsDigit(digits[|digits| - 1]);
  }

  lemma {:induction false} ParseSignedLiteral(sign: string, digits: string)
    requires sign == "" || sign == "+" || sign == "-"
    requires |digits| > 0 && AllDigits(digits)
    ensures ParseSigned(sign + digits)
         == Some(if sign == "-" then -(DigitsValue(digits) as int) else DigitsValue(digits))
  {
    var t := sign + digits;
    if sign != "" {
      assert t[0] == sign[0];
      assert t[1..] == digits;
    } else {
      assert t == digits;
      assert t[0] != '-' && t[0] != '+' by {
        assert IsDigit(digits[0]);
      }
    }
  }

  /** Whatever `int(s)` accepts is a signed decimal literal, whose value it
      returns. */
  lemma {:induction false} ParseIntValue(s: string)
    requires ParseInt(s).Some?
    ensures var t := Strip(s);
      || (AllDigits(t) && ParseInt(s).value == DigitsValue(t))
      || (t[0] == '+' && AllDigits(t[1..]) && ParseInt(s).value == DigitsValue(t[1..]))
      || (t[0] == '-' && AllDigits(t[1..]) && ParseInt(s).value == -(DigitsValue(t[1..]) as int))
  {
  }

  /** The stripped text: one optional sign, then at least one digit. */
  function ParseSigned(t: string): (r: Option<int>)
    ensures r.Some? ==> |t| > 0
  {
    if |t| == 0 then None
    else
      var neg := t[0] == '-';
      var body := if t[0] == '-' || t[0] == '+' then t[1..] else t;
      if |body| == 0 || !AllDigits(body) then None
      else
        var v: int := DigitsValue(body);
        Some(if neg then -v else v)
  }

  lemma ParseSignedOfIntToString(i: int)
    ensures ParseSigned(IntToString(i)) == Some(i)
  {
    if i < 0 {
      assert IntToString(i)[1..] == NatToString(-i);
      DigitsValueOfNatToString(-i);
    } else {
      DigitsValueOfNatToString(i);
    }
  }

  /** Parsing what `str` printed gives the number back. */
  lemma ParseIntOfIntToString(i: int)
    ensures ParseInt(IntToString(i)) == Some(i)
  {
    var s := IntToString(i);
    assert IsDigit(s[|s| - 1]);
    StripUnspaced(s);
    ParseSignedOfIntToString(i);
  }
}
