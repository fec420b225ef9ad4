/** Decimal digits: the `digit1` and `u32` parsers of nom, Rust's `u32::from_str`,
    and the decimal rendering used by `to_string` and `format!`. */
module Text {
  import opened Wrappers

  const U32_MAX: nat := 0xFFFF_FFFF
  const U8_MAX: nat := 0xFF

  predicate IsDigit(c: char) { '0' <= c <= '9' }

  predicate AllDigits(s: string) { forall i :: 0 <= i < |s| ==> IsDigit(s[i]) }

  /** The value of one decimal digit. */
  function DigitValue(c: char): (d: nat)
    requires IsDigit(c)
    ensures d < 10
  {
    (c as int - '0' as int) as nat
  }

  function DigitChar(d: nat): (c: char)
    requires d < 10
    ensures IsDigit(c) && DigitValue(c) == d
  {
    ('0' as int + d) as char
  }

  /** The value of a string of decimal digits, most significant first. */
  function DigitsValue(s: string): nat
    requires AllDigits(s)
  {
    if s == [] then 0 else DigitsValue(s[..|s| - 1]) * 10 + DigitValue(s[|s| - 1])
  }

  /** The length of the longest prefix of `s` made of digits. */
  function LeadingDigits(s: string): (n: nat)
    ensures n <= |s|
    ensures AllDigits(s[..n])
    ensures n < |s| ==> !IsDigit(s[n])
  {
    if s != [] && IsDigit(s[0]) then
      var k := LeadingDigits(s[1..]);
      assert s[..k + 1] == [s[0]] + s[1..][..k];
      1 + k
    else 0
  }

  /** Decimal rendering of a natural number, without leading zeros. */
  function NatToString(n: nat): (s: string)
    ensures |s| > 0 && AllDigits(s)
    decreases n
  {
    if n < 10 then [DigitChar(n)] else NatToString(n / 10) + [DigitChar(n % 10)]
  }

  lemma {:induction false} NatToStringValue(n: nat)
    ensures DigitsValue(NatToString(n)) == n
    decreases n
  {
    if n >= 10 {
      var s := NatToString(n);
      assert s[..|s| - 1] == NatToString(n / 10);
      NatToStringValue(n / 10);
    }
  }

  /** Parse results of nom-style parsers: the value and the remaining input. */
  datatype Parsed<T> = Done(value: T, rest: string) | Fail

  /** `rest` is a suffix of `s` strictly shorter than `s`. */
  predicate ProperSuffix(rest: string, s: string)
  {
    |rest| < |s| && rest == s[|s| - |rest|..]
  }

  lemma ProperSuffixTrans(a: string, b: string, c: string)
    requires ProperSuffix(a, b) && ProperSuffix(b, c)
    ensures ProperSuffix(a, c)
  {
    assert c[|c| - |b|..][|b| - |a|..] == c[|c| - |a|..];
  }

  /** nom's `tag`: consume exactly the character `c`. */
  function Tag(c: char, s: string): (r: Parsed<()>)
    ensures r.Done? <==> (|s| > 0 && s[0] == c)
    ensures r.Done? ==> r.rest == s[1..] && ProperSuffix(r.rest, s)
  {
    if |s| > 0 && s[0] == c then Done((), s[1..]) else Fail
  }

  /** nom's `digit1`: at least one digit, as many as there are. */
  function Digit1(s: string): (r: Parsed<string>)
    ensures r.Done? <==> (|s| > 0 && IsDigit(s[0]))
    ensures r.Done? ==> AllDigits(r.value) && |r.value| > 0 && s == r.value + r.rest
    ensures r.Done? ==> r.rest == [] || !IsDigit(r.rest[0])
  {
    var n := LeadingDigits(s);
    if n == 0 then Fail else Done(s[..n], s[n..])
  }

  /** nom's `character::complete::u32`: a digit run whose value fits in 32 bits. */
  function NomU32(s: string): (r: Parsed<nat>)
    ensures var n := LeadingDigits(s); r.Done? <==> (n > 0 && DigitsValue(s[..n]) <= U32_MAX)
    ensures r.Done? ==> r.value == DigitsValue(s[..LeadingDigits(s)]) && r.rest == s[LeadingDigits(s)..]
    ensures r.Done? ==> r.value <= U32_MAX && ProperSuffix(r.rest, s)
    ensures r.Done? ==> r.rest == [] || !IsDigit(r.rest[0])
  {
    match Digit1(s)
    case Fail => Fail
    case Done(ds, rest) =>
      var v := DigitsValue(ds);
      if v <= U32_MAX then Done(v, rest) else Fail
  }

  lemma {:induction false} LeadingDigitsOfConcat(ds: string, rest: string)
    requires AllDigits(ds)
    requires rest == [] || !IsDigit(rest[0])
    ensures LeadingDigits(ds + rest) == |ds|
    decreases |ds|
  {
    if ds != [] {
      assert (ds + rest)[1..] == ds[1..] + rest;
      LeadingDigitsOfConcat(ds[1..], rest);
    }
  }

  /** `NomU32` reads back what `NatToString` wrote, when the next character is not a digit. */
  lemma NomU32OfNatToString(n: nat, rest: string)
    requires n <= U32_MAX
    requires rest == [] || !IsDigit(rest[0])
    ensures NomU32(NatToString(n) + rest) == Done(n, rest)
  {
    var s := NatToString(n);
    LeadingDigitsOfConcat(s, rest);
    assert (s + rest)[..|s|] == s;
    assert (s + rest)[|s|..] == rest;
    NatToStringValue(n);
  }

  /** Rust's `str::parse::<u32>()` (and `u8` with `max == U8_MAX`): an optional
      `+`, then one or more digits and nothing else, with a value of at most `max`. */
  function ParseUnsigned(s: string, max: nat): (r: Option<nat>)
    ensures var ds := if |s| > 0 && s[0] == '+' then s[1..] else s;
              (r.Some? <==> (|ds| > 0 && AllDigits(ds) && DigitsValue(ds) <= max))
              && (r.Some? ==> r.value == DigitsValue(ds))
    ensures r.Some? ==> r.value <= max
  {
    var ds := if |s| > 0 && s[0] == '+' then s[1..] else s;
    if |ds| == 0 || !AllDigits(ds) then None
    else if DigitsValue(ds) <= max then Some(DigitsValue(ds))
    else None
  }

  lemma ParseUnsignedOfNatToString(n: nat, max: nat)
    requires n <= max
    ensures ParseUnsigned(NatToString(n), max) == Some(n)
  {
    NatToStringValue(n);
  }
}
