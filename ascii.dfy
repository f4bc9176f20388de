/**
 * Character classes and small text routines over ASCII strings. Rust's
 * regex `\d`, `char::to_lowercase`, `str::contains` and the unsigned
 * `from_str` parsers are modelled here on ASCII input only.
 */
module Ascii {
  import opened Wrappers

  predicate IsAsciiChar(c: char) { c as int < 128 }

  predicate IsAscii(s: string) { forall i :: 0 <= i < |s| ==> IsAsciiChar(s[i]) }

  predicate IsDigit(c: char) { '0' <= c <= '9' }

  predicate IsUpper(c: char) { 'A' <= c <= 'Z' }

  predicate IsLower(c: char) { 'a' <= c <= 'z' }

  /** The class `[A-Za-z0-9]`. */
  predicate IsAlnum(c: char) { IsDigit(c) || IsUpper(c) || IsLower(c) }

  predicate AllDigits(s: string) { forall i :: 0 <= i < |s| ==> IsDigit(s[i]) }

  predicate AllAlnum(s: string) { forall i :: 0 <= i < |s| ==> IsAlnum(s[i]) }

  function DigitValue(c: char): nat
    requires IsDigit(c)
  {
    c as int - '0' as int
  }

  function DigitChar(d: nat): (c: char)
    requires d < 10
    ensures IsDigit(c) && DigitValue(c) == d
  {
    ('0' as int + d) as char
  }

  function Pow10(n: nat): (p: nat)
    ensures p >= 1
  {
    if n == 0 then 1 else 10 * Pow10(n - 1)
  }

  /** The value of a string of decimal digits, most significant digit first. */
  function Decimal(s: string): (v: nat)
    requires AllDigits(s)
    ensures v < Pow10(|s|)
  {
    if s == [] then 0 else Decimal(s[..|s| - 1]) * 10 + DigitValue(s[|s| - 1])
  }

  /** `n` written with exactly `width` decimal digits, zero-padded on the left. */
  function Pad(n: nat, width: nat): (s: string)
    requires n < Pow10(width)
    ensures |s| == width && AllDigits(s) && Decimal(s) == n
  {
    if width == 0 then []
    else
      var high := Pad(n / 10, width - 1);
      var s := high + [DigitChar(n % 10)];
      assert s[..|s| - 1] == high;
      s
  }

  /** ASCII lowercasing; every other character is left as it is. */
  function ToLower(c: char): char
  {
    if IsUpper(c) then (c as int + 32) as char else c
  }

  function Lower(s: string): string
  {
    seq(|s|, i requires 0 <= i < |s| => ToLower(s[i]))
  }

  /** `w` occurs in `s` starting at index `i`. */
  predicate OccursAt(s: string, w: string, i: nat)
  {
    i + |w| <= |s| && s[i..i + |w|] == w
  }

  /** Rust's `str::contains` with a string pattern, scanning left to right. */
  function Contains(s: string, w: string): bool
    decreases |s|
  {
    if |s| < |w| then false else s[..|w|] == w || Contains(s[1..], w)
  }

  /** `Contains` holds exactly when the pattern occurs at some index. */
  lemma {:induction false} ContainsIff(s: string, w: string)
    ensures Contains(s, w) <==> exists i: nat :: OccursAt(s, w, i)
    decreases |s|
  {
    if |s| >= |w| && s[..|w|] != w {
      assert |s| > 0;
      ContainsIff(s[1..], w);
      if Contains(s[1..], w) {
        var i: nat :| OccursAt(s[1..], w, i);
        assert s[i + 1..i + 1 + |w|] == s[1..][i..i + |w|];
        assert OccursAt(s, w, i + 1);
      }
      if exists i: nat :: OccursAt(s, w, i) {
        var i: nat :| OccursAt(s, w, i);
        assert i != 0;
        assert s[1..][i - 1..i - 1 + |w|] == s[i..i + |w|];
        assert OccursAt(s[1..], w, i - 1);
      }
    } else if |s| >= |w| {
      assert OccursAt(s, w, 0);
    }
  }

  /** A pattern whose first character does not occur in `s` is not contained in it. */
  lemma FirstCharAbsent(s: string, w: string)
    requires |w| > 0 && w[0] !in s
    ensures !Contains(s, w)
  {
    ContainsIff(s, w);
  }

  /**
   * Rust's `<uN as FromStr>::from_str` for an unsigned type whose values
   * are below `limit` (2^32 for u32, 2^8 for u8): one optional leading '+',
   * then one or more decimal digits whose value fits the type.
   */
  function ParseUnsigned(s: string, limit: nat): (r: Option<nat>)
    ensures r.Some? ==> r.value < limit
    ensures r.Some? ==>
              || (|s| > 0 && AllDigits(s) && r.value == Decimal(s))
              || (|s| > 1 && s[0] == '+' && AllDigits(s[1..]) && r.value == Decimal(s[1..]))
    ensures |s| > 0 && AllDigits(s) && Decimal(s) < limit ==> r == Some(Decimal(s))
    ensures |s| > 1 && s[0] == '+' && AllDigits(s[1..]) && Decimal(s[1..]) < limit ==> r == Some(Decimal(s[1..]))
  {
    if |s| == 0 then None
    else if s[0] == '+' then DigitsValue(s[1..], limit)
    else DigitsValue(s, limit)
  }

  function DigitsValue(digits: string, limit: nat): Option<nat>
  {
    if |digits| > 0 && AllDigits(digits) && Decimal(digits) < limit then Some(Decimal(digits)) else None
  }
}
