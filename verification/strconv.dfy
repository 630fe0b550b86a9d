/**
 Go's `strconv.ParseInt(s, 10, 64)`, which `NewCurrency` uses for the
 integer part. `strconv.Atoi` on a 64-bit platform accepts and rejects the
 same texts and yields the same values, so the fraction part uses it too.
 */
module Strconv {
  import opened Results
  import opened GoInt

  predicate IsDigit(c: char)
  {
    '0' <= c <= '9'
  }

  predicate AllDigits(s: string)
  {
    forall i :: 0 <= i < |s| ==> IsDigit(s[i])
  }

  /** The value of a string of decimal digits, most significant first. */
  function DigitsValue(s: string): (v: nat)
    requires AllDigits(s)
    decreases |s|
  {
    if |s| == 0 then 0
    else DigitsValue(s[..|s| - 1]) * 10 + (s[|s| - 1] as int - '0' as int)
  }

  /** Base-10 parse with an optional `+` or `-` sign and at least one digit;
      `None` for any other text (Go's syntax error) and for a value outside
      the `int64` range (Go's range error). Leading zeros are accepted. */
  function ParseInt(s: string): (r: Option<Int64>)
    ensures r.Some? ==> 1 <= |s| && (s[0] == '-' || s[0] == '+' || IsDigit(s[0]))
    ensures r.Some? && r.value < 0 ==> s[0] == '-'
    ensures |s| == 0 || s == "-" || s == "+" ==> r.None?
  {
    if |s| == 0 then None
    else
      var signed := s[0] == '-' || s[0] == '+';
      var digits := if signed then s[1..] else s;
      if |digits| == 0 || !AllDigits(digits) then None
      else
        var n: int := DigitsValue(digits);
        var v := if s[0] == '-' then -n else n;
        if MinInt64 <= v <= MaxInt64 then Some(v) else None
  }

  /** The decimal digits of `n`, without leading zeros. */
  function FormatNat(n: nat): (s: string)
    ensures |s| >= 1 && AllDigits(s)
    ensures DigitsValue(s) == n
    decreases n
  {
    var last := [(n % 10 + '0' as int) as char];
    if n < 10 then last else FormatNat(n / 10) + last
  }

  /** `strconv.FormatInt(v, 10)`: a `-` for negative values, then the digits. */
  function FormatInt(v: int): string
  {
    if v < 0 then ['-'] + FormatNat(-v) else FormatNat(v)
  }

  /** Parsing what `FormatInt` prints gives back every `int64`. */
  lemma ParseFormat(v: Int64)
    ensures ParseInt(FormatInt(v)) == Some(v)
  {
    if v < 0 {
      ParseSigned('-', FormatNat(-(v as int)));
    } else {
      ParseUnsigned(FormatNat(v));
    }
  }

  /** A sign and digits whose signed value is in range parse to that value. */
  lemma ParseSigned(sign: char, digits: string)
    requires sign == '-' || sign == '+'
    requires |digits| >= 1 && AllDigits(digits)
    requires var n: int := DigitsValue(digits); MinInt64 <= (if sign == '-' then -n else n) <= MaxInt64
    ensures var n: int := DigitsValue(digits); ParseInt([sign] + digits) == Some(if sign == '-' then -n else n)
  {
    var s := [sign] + digits;
    assert s[0] == sign;
    assert s[1..] == digits;
  }

  /** The converse of `ParseSigned` and `ParseUnsigned`: a text is
      accepted only when it is an optional sign followed by at least one
      digit, and its value is then the signed value of those digits. So a
      non-digit after the sign, or a value outside the `int64` range, is
      always rejected. */
  lemma ParseAccepted(s: string) returns (sign: string, digits: string)
    requires ParseInt(s).Some?
    ensures sign == "" || sign == "-" || sign == "+"
    ensures s == sign + digits && |digits| >= 1 && AllDigits(digits)
    ensures ParseInt(s).value == if sign == "-" then -(DigitsValue(digits) as int) else DigitsValue(digits)
  {
    if s[0] == '-' || s[0] == '+' {
      sign, digits := [s[0]], s[1..];
    } else {
      sign, digits := "", s;
    }
    assert s == sign + digits;
  }

  /** An optional sign and digits whose signed value lies outside the
      `int64` range are rejected (Go's range error). */
  lemma ParseOutOfRange(sign: string, digits: string)
    requires sign == "" || sign == "-" || sign == "+"
    requires |digits| >= 1 && AllDigits(digits)
    requires var n: int := DigitsValue(digits); !(MinInt64 <= (if sign == "-" then -n else n) <= MaxInt64)
    ensures ParseInt(sign + digits).None?
  {
    var s := sign + digits;
    if sign == "" {
      assert s == digits;
      assert IsDigit(digits[0]);
    } else {
      assert s[0] == sign[0];
      assert s[1..] == digits;
    }
  }

  /** Unsigned digits up to the `int64` maximum parse to their value. */
  lemma ParseUnsigned(digits: string)
    requires |digits| >= 1 && AllDigits(digits)
    requires DigitsValue(digits) <= MaxInt64
    ensures ParseInt(digits) == Some(DigitsValue(digits))
  {
    assert IsDigit(digits[0]);
  }
}
