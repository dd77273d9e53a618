/** Decimal rendering (`format!("{}")`, `format!("{:02}")`) and Rust's
    `str::parse` for the integer types the configuration uses. */
module Numbers {
  import opened Results

  const I32_MIN: int := -0x8000_0000
  const I32_MAX: int := 0x7FFF_FFFF
  const I64_MIN: int := -0x8000_0000_0000_0000
  const I64_MAX: int := 0x7FFF_FFFF_FFFF_FFFF
  const U64_MAX: int := 0xFFFF_FFFF_FFFF_FFFF

  predicate IsDigit(c: char) {
    '0' <= c <= '9'
  }

  predicate AllDigits(s: string) {
    forall i :: 0 <= i < |s| ==> IsDigit(s[i])
  }

  function DigitValue(c: char): (d: nat)
    requires IsDigit(c)
    ensures d < 10
  {
    c as int - '0' as int
  }

  function DigitChar(d: nat): (c: char)
    requires d < 10
    ensures IsDigit(c) && DigitValue(c) == d
  {
    ('0' as int + d) as char
  }

  /** The value of a string of decimal digits, most significant first. */
  function DigitsValue(s: string): nat
    requires AllDigits(s)
  {
    if s == [] then 0 else DigitsValue(s[..|s| - 1]) * 10 + DigitValue(s[|s| - 1])
  }

  /** `format!("{}", n)` for a non-negative integer: its shortest decimal
      representation, which reads back as `n` and has no leading zero. */
  function NatToString(n: nat): (r: string)
    ensures |r| >= 1 && AllDigits(r)
    ensures DigitsValue(r) == n
    ensures r[0] == '0' ==> n == 0
    ensures n < 10 ==> |r| == 1
    ensures 10 <= n < 100 ==> |r| == 2
  {
    if n < 10 then [DigitChar(n)]
    else
      var r := NatToString(n / 10) + [DigitChar(n % 10)];
      assert r[..|r| - 1] == NatToString(n / 10);
      r
  }

  /** `format!("{:02}", n)`: zero-padded to at least two digits. */
  function Pad2(n: nat): (r: string)
    ensures |r| >= 2 && AllDigits(r)
    ensures DigitsValue(r) == n
    ensures n < 100 ==> |r| == 2
  {
    if n < 10 then
      var r := "0" + NatToString(n);
      assert r[..1] == "0";
      r
    else NatToString(n)
  }

  /** Rust's `str::parse` for an integer type whose range is `[lo, hi]`:
      an optional `+` (or `-` when the type is signed), then at least one
      ASCII digit and nothing else, and the value must fit the type. */
  function ParseInt(s: string, signed: bool, lo: int, hi: int): (r: Option<int>)
    ensures r.Some? ==> lo <= r.value <= hi
  {
    if s == [] then None
    else
      var negative := signed && s[0] == '-';
      var digits := if s[0] == '+' || negative then s[1..] else s;
      if digits == [] || !AllDigits(digits) then None
      else
        var v: int := if negative then -(DigitsValue(digits) as int) else DigitsValue(digits);
        if lo <= v <= hi then Some(v) else None
  }

  function ParseI32(s: string): (r: Option<int>)
    ensures r.Some? ==> I32_MIN <= r.value <= I32_MAX
  {
    ParseInt(s, true, I32_MIN, I32_MAX)
  }

  function ParseI64(s: string): (r: Option<int>)
    ensures r.Some? ==> I64_MIN <= r.value <= I64_MAX
  {
    ParseInt(s, true, I64_MIN, I64_MAX)
  }

  function ParseU64(s: string): (r: Option<int>)
    ensures r.Some? ==> 0 <= r.value <= U64_MAX
    ensures s != [] && s[0] == '-' ==> r == None
  {
    ParseInt(s, false, 0, U64_MAX)
  }

  /** Parsing succeeds only on a non-empty string whose every character is a
      digit or a leading sign, so whitespace around a number is rejected. */
  lemma ParseIntShape(s: string, signed: bool, lo: int, hi: int)
    requires ParseInt(s, signed, lo, hi).Some?
    ensures s != []
    ensures forall i :: 0 <= i < |s| ==> IsDigit(s[i]) || (i == 0 && (s[0] == '+' || s[0] == '-'))
  {
  }

  /** Rendering then parsing gives back the number, in any type that holds it. */
  lemma ParseNatToString(n: nat, signed: bool, lo: int, hi: int)
    requires lo <= n <= hi
    ensures ParseInt(NatToString(n), signed, lo, hi) == Some(n)
  {
    var r := NatToString(n);
    assert IsDigit(r[0]);
  }

  /** A minus sign in front of a rendered number parses as its negation in a
      signed type. */
  lemma ParseNegated(n: nat, lo: int, hi: int)
    requires lo <= -(n as int) <= hi
    ensures ParseInt("-" + NatToString(n), true, lo, hi) == Some(-(n as int))
  {
    var s := "-" + NatToString(n);
    assert s[1..] == NatToString(n);
  }

  /** An unsigned type rejects every minus sign. */
  lemma ParseUnsignedRejectsMinus(s: string, lo: int, hi: int)
    requires s != [] && s[0] == '-'
    ensures ParseInt(s, false, lo, hi) == None
  {
    assert !IsDigit(s[0]);
  }
}
