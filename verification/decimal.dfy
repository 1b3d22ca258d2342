/**
 * Decimal text of 64-bit signed integers: `i64::to_string` (used for the
 * scrobble timestamp) and `str::parse::<i64>` (used for the `accepted` and
 * `ignored` attributes of a scrobble response).
 */
module Decimal {
  import opened Wrappers

  const I64Min: int := -0x8000_0000_0000_0000
  const I64Max: int := 0x7FFF_FFFF_FFFF_FFFF

  predicate IsDigit(c: char)
  {
    '0' <= c <= '9'
  }

  predicate AllDigits(s: string)
  {
    forall i :: 0 <= i < |s| ==> IsDigit(s[i])
  }

  /** The number an all-digit string spells in base ten (leading zeros allowed). */
  function DigitsValue(s: string): nat
    requires AllDigits(s)
  {
    if |s| == 0 then 0 else DigitsValue(s[..|s| - 1]) * 10 + (s[|s| - 1] as int - '0' as int)
  }

  function DigitChar(d: int): (c: char)
    requires 0 <= d < 10
    ensures IsDigit(c) && c as int - '0' as int == d
  {
    ('0' as int + d) as char
  }

  /** Shortest decimal spelling of `n`: digits only, no leading zero. */
  function NatDigits(n: nat): (r: string)
    ensures |r| > 0 && AllDigits(r)
    ensures DigitsValue(r) == n
    ensures |r| > 1 ==> r[0] != '0'
  {
    if n < 10 then
      [DigitChar(n)]
    else
      var prefix := NatDigits(n / 10);
      var r := prefix + [DigitChar(n % 10)];
      assert r[..|r| - 1] == prefix;
      r
  }

  /** `n.to_string()`: a minus sign for negative values, then the digits of |n|. */
  function FormatInt(n: int): (r: string)
    ensures |r| > 0
    ensures n < 0 <==> r[0] == '-'
    ensures n >= 0 ==> AllDigits(r)
    ensures n < 0 ==> AllDigits(r[1..])
    ensures n >= 0 ==> DigitsValue(r) == n && (|r| > 1 ==> r[0] != '0')
    ensures n < 0 ==> |r| > 1 && DigitsValue(r[1..]) == -n && r[1] != '0'
  {
    if n < 0 then "-" + NatDigits(-n) else NatDigits(n)
  }

  /** The text after an optional leading `+` or `-`. */
  function Magnitude(s: string): string
  {
    if |s| > 0 && (s[0] == '+' || s[0] == '-') then s[1..] else s
  }

  /** Decimal integer syntax: an optional sign, then one or more ASCII digits. */
  predicate IsDecimal(s: string)
  {
    |Magnitude(s)| > 0 && AllDigits(Magnitude(s))
  }

  /** The value decimal text denotes, without any range limit. */
  function DecimalValue(s: string): int
    requires IsDecimal(s)
  {
    if s[0] == '-' then 0 - DigitsValue(Magnitude(s)) as int else DigitsValue(Magnitude(s))
  }

  /**
   * `s.parse::<i64>()`: an optional `+` or `-`, then one or more ASCII
   * digits, and a value that fits in an i64. Anything else is an error,
   * modelled as None.
   */
  function ParseI64(s: string): (r: Option<int>)
    ensures r.Some? <==> IsDecimal(s) && I64Min <= DecimalValue(s) <= I64Max
    ensures r.Some? ==> r.value == DecimalValue(s)
    ensures r.Some? ==> I64Min <= r.value <= I64Max
    ensures r.Some? ==> |s| > 0 && (IsDigit(s[0]) || s[0] == '+' || s[0] == '-')
    ensures r.Some? ==> AllDigits(s[1..])
    ensures r.Some? && r.value < 0 ==> s[0] == '-'
  {
    if |s| == 0 then
      None
    else
      var signed := s[0] == '+' || s[0] == '-';
      var digits := if signed then s[1..] else s;
      if |digits| == 0 || !AllDigits(digits) then
        None
      else
        var v: int := if s[0] == '-' then 0 - DigitsValue(digits) as int else DigitsValue(digits);
        if I64Min <= v <= I64Max then Some(v) else None
  }

  /** Parsing reads back every i64 that `FormatInt` writes. */
  lemma FormatParseRoundTrip(n: int)
    requires I64Min <= n <= I64Max
    ensures ParseI64(FormatInt(n)) == Some(n)
  {
    var s := FormatInt(n);
    if n < 0 {
      assert s[1..] == NatDigits(-n);
    }
  }

  /** A leading zero does not change the value of a digit string. */
  lemma {:induction false} DigitsLeadingZero(d: string)
    requires AllDigits(d)
    ensures AllDigits("0" + d) && DigitsValue("0" + d) == DigitsValue(d)
  {
    if |d| > 0 {
      var z := "0" + d;
      assert z[..|z| - 1] == "0" + d[..|d| - 1];
      DigitsLeadingZero(d[..|d| - 1]);
    }
  }

  /** A leading zero does not change what an unsigned count parses to, nor whether it parses. */
  lemma LeadingZeroIgnored(d: string)
    requires |d| > 0 && AllDigits(d)
    ensures ParseI64("0" + d) == ParseI64(d)
  {
    DigitsLeadingZero(d);
  }

  /** A leading `+` does not change what an unsigned count parses to, nor whether it parses. */
  lemma PlusSignIgnored(d: string)
    requires |d| > 0 && AllDigits(d)
    ensures ParseI64("+" + d) == ParseI64(d)
  {
    assert ("+" + d)[1..] == d;
  }
}
