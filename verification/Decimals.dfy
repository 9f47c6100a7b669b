/**
 Decimal numerals: printing with leading zeros, and the integer parsing of Rust's
 `str::parse`, which also takes a sign.
 */
module Decimals {
  import opened Prelude

  predicate IsDigit(c: char) { '0' <= c <= '9' }

  predicate AllDigits(s: string)
  {
    forall i :: 0 <= i < |s| ==> IsDigit(s[i])
  }

  /** The number written by the decimal digits `s`. */
  function DigitsValue(s: string): nat
    requires AllDigits(s)
  {
    if s == [] then 0 else DigitsValue(s[..|s| - 1]) * 10 + (s[|s| - 1] - '0') as nat
  }

  /** The shortest decimal text of `n`. */
  function Decimal(n: nat): (s: string)
    ensures |s| >= 1 && AllDigits(s)
  {
    if n < 10 then [n as char + '0'] else Decimal(n / 10) + [(n % 10) as char + '0']
  }

  function Zeros(n: nat): (s: string)
    ensures |s| == n && forall i :: 0 <= i < n ==> s[i] == '0'
  {
    seq(n, _ => '0')
  }

  /** `{n:0width}` of an unsigned integer. */
  function Padded(n: nat, width: nat): (s: string)
    ensures |s| >= 1 && AllDigits(s)
  {
    var d := Decimal(n);
    if |d| >= width then d else Zeros(width - |d|) + d
  }

  /** `{n:0width}` of a signed integer: the sign counts towards the width. */
  function PaddedSigned(n: int, width: nat): string
  {
    if n >= 0 then Padded(n, width)
    else "-" + Padded(-n, if width > 0 then width - 1 else 0)
  }

  lemma {:induction false} DecimalValue(n: nat)
    ensures DigitsValue(Decimal(n)) == n
  {
    if n >= 10 {
      DecimalValue(n / 10);
      var s := Decimal(n);
      assert s[..|s| - 1] == Decimal(n / 10);
    } else {
      var s := Decimal(n);
      assert s[..0] == [];
    }
  }

  lemma {:induction false} LeadingZeros(k: nat, s: string)
    requires AllDigits(s)
    ensures AllDigits(Zeros(k) + s) && DigitsValue(Zeros(k) + s) == DigitsValue(s)
  {
    var z := Zeros(k) + s;
    if s != [] {
      LeadingZeros(k, s[..|s| - 1]);
      assert z[..|z| - 1] == Zeros(k) + s[..|s| - 1];
    } else if k > 0 {
      LeadingZeros(k - 1, s);
      assert z[..|z| - 1] == Zeros(k - 1) + s;
    }
  }

  lemma PaddedValue(n: nat, width: nat)
    ensures DigitsValue(Padded(n, width)) == n
  {
    DecimalValue(n);
    var d := Decimal(n);
    if |d| < width { LeadingZeros(width - |d|, d); }
  }

  /** `str::parse` for an unsigned integer type: an optional `+`, then digits. */
  function ParseUnsigned(s: string, max: nat): Option<nat>
  {
    var body := if s != [] && s[0] == '+' then s[1..] else s;
    if body == [] || !AllDigits(body) then None
    else if DigitsValue(body) > max then None
    else Some(DigitsValue(body))
  }

  /** `str::parse` for a signed integer type. */
  function ParseSigned(s: string, min: int, max: nat): Option<int>
  {
    if s != [] && s[0] == '-' then
      var body := s[1..];
      if body == [] || !AllDigits(body) then None
      else
        var n: int := DigitsValue(body);
        if -n < min then None else Some(-n)
    else
      match ParseUnsigned(s, max)
      case None => None
      case Some(n) => Some(n)
  }

  lemma ParsePadded(n: nat, width: nat, max: nat)
    requires n <= max
    ensures ParseUnsigned(Padded(n, width), max) == Some(n)
    ensures forall min :: ParseSigned(Padded(n, width), min, max) == Some(n)
  {
    PaddedValue(n, width);
    var s := Padded(n, width);
    assert IsDigit(s[0]);
  }

  function Power10(k: nat): nat
  {
    if k == 0 then 1 else 10 * Power10(k - 1)
  }

  lemma {:induction false} DecimalLength(n: nat, k: nat)
    requires k >= 1 && n < Power10(k)
    ensures |Decimal(n)| <= k
  {
    if n >= 10 { DecimalLength(n / 10, k - 1); }
  }

  lemma {:induction false} ZerosValue(s: string)
    requires forall i :: 0 <= i < |s| ==> s[i] == '0'
    ensures AllDigits(s) && DigitsValue(s) == 0
  {
    if s != [] { ZerosValue(s[..|s| - 1]); }
  }
}
