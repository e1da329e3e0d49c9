/** Decimal numbers as text: printing, and the strict parsers used on untrusted bytes. */
module Decimal {
  import opened Ints
  import opened Wrappers

  predicate IsDigit(c: char) {
    '0' <= c <= '9'
  }

  function DigitValue(c: char): (d: nat)
    ensures IsDigit(c) ==> d < 10
  {
    if IsDigit(c) then c as int - '0' as int else 0
  }

  function Digit(d: nat): (c: char)
    requires d < 10
    ensures IsDigit(c) && DigitValue(c) == d
  {
    ('0' as int + d) as char
  }

  predicate AllDigits(s: string) {
    forall i :: 0 <= i < |s| ==> IsDigit(s[i])
  }

  function Value(s: string): nat {
    if s == [] then 0 else 10 * Value(s[..|s| - 1]) + DigitValue(s[|s| - 1])
  }

  function ToDec(n: nat): string {
    if n < 10 then [Digit(n)] else ToDec(n / 10) + [Digit(n % 10)]
  }

  function ToSigned(n: int): string {
    if n < 0 then "-" + ToDec(-n) else ToDec(n)
  }

  // -------- parsing --------

  function ParseU64(s: string): Option<nat> {
    if s != [] && AllDigits(s) && Value(s) <= U64_MAX then Some(Value(s)) else None
  }

  function ParseI64(s: string): Option<int>
  {
    var neg := s != [] && s[0] == '-';
    match ParseU64(if neg then s[1..] else s)
    case None => None
    case Some(u) =>
      if !neg then (if u <= I64_MAX then Some(u) else None)
      else (if u <= I64_MAX + 1 then Some(0 - u) else None)
  }

  lemma {:induction false} ValuePrefix(s: string, i: nat)
    requires i <= |s|
    ensures Value(s[..i]) <= Value(s)
  {
    if i < |s| {
      ValuePrefix(s[..|s| - 1], i);
      assert s[..|s| - 1][..i] == s[..i];
    } else {
      assert s[..i] == s;
    }
  }

  // The digit loop with its overflow guard accepts exactly the non-empty digit strings that fit in 64 bits.
  method ReadU64(s: string) returns (r: Option<nat>)
    ensures r == ParseU64(s)
  {
    if s == [] { return None; }
    var v := 0;
    var i := 0;
    while i < |s|
      invariant 0 <= i <= |s| && AllDigits(s[..i])
      invariant v == Value(s[..i]) <= U64_MAX
    {
      if !IsDigit(s[i]) { return None; }
      var d := DigitValue(s[i]);
      assert s[..i + 1][..i] == s[..i] && s[..i + 1][i] == s[i];
      if v > (U64_MAX - d) / 10 {
        ValuePrefix(s, i + 1);
        return None;
      }
      v := v * 10 + d;
      i := i + 1;
    }
    assert s[..i] == s;
    r := Some(v);
  }

  // -------- round trips --------

  lemma {:induction false} ToDecValue(n: nat)
    ensures AllDigits(ToDec(n)) && ToDec(n) != [] && Value(ToDec(n)) == n
  {
    if n < 10 {
      assert [Digit(n)][..0] == [];
    } else {
      ToDecValue(n / 10);
      assert ToDec(n)[..|ToDec(n)| - 1] == ToDec(n / 10);
    }
  }

  // Every unsigned 64-bit number survives printing and strict parsing.
  lemma U64RoundTrip(n: nat)
    requires n <= U64_MAX
    ensures ParseU64(ToDec(n)) == Some(n)
  {
    ToDecValue(n);
  }

  // Every signed 64-bit number does too, the most negative one included.
  lemma I64RoundTrip(n: int)
    requires 0 - I64_MAX - 1 <= n <= I64_MAX
    ensures ParseI64(ToSigned(n)) == Some(n)
  {
    hide ToDec, Value;
    if n < 0 {
      ToDecValue(-n);
      assert ToSigned(n)[1..] == ToDec(-n);
    } else {
      ToDecValue(n);
    }
  }

  function Pow10(k: nat): nat {
    if k == 0 then 1 else 10 * Pow10(k - 1)
  }

  lemma {:induction false} ToDecLength(n: nat, k: nat)
    requires n < Pow10(k) && k >= 1
    ensures |ToDec(n)| <= k
  {
    if n >= 10 {
      ToDecLength(n / 10, k - 1);
    }
  }

  // A signed number is decimal digits, after a minus sign or nothing, within 64 bits; no plus sign and no spaces.
  lemma I64Iff(s: string, n: int)
    ensures ParseI64(s) == Some(n) <==>
            || (s != [] && AllDigits(s) && n == Value(s) && n <= 0x7fff_ffff_ffff_ffff)
            || (|s| > 1 && s[0] == '-' && AllDigits(s[1..]) && n == 0 - Value(s[1..]) && n >= -0x8000_0000_0000_0000)
  {
    hide Value;
    if s != [] { assert !IsDigit('-'); }
  }
}
