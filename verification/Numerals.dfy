/** Numerals as the compiler prints them: base 10 ("%d", "%zu") and base 36 (`writeBase36`),
    together with the reader that recovers the number. */
module Numerals {

  function DigitChar(d: nat): (c: char)
    requires d < 36
    ensures DigitValue(c) == d
  {
    if d < 10 then '0' + d as char else 'A' + (d - 10) as char
  }

  /** The value of a digit, or 36 for a character that is no digit in any base up to 36. */
  function DigitValue(c: char): (d: nat)
  {
    if '0' <= c <= '9' then (c - '0') as nat
    else if 'A' <= c <= 'Z' then 10 + (c - 'A') as nat
    else 36
  }

  predicate IsDigit(c: char, base: nat) {
    DigitValue(c) < base
  }

  lemma Shrinks(n: nat, base: nat)
    requires 2 <= base <= n
    ensures 0 <= n / base < n && 0 <= n % base < base
    ensures (n / base) * base + n % base == n
  {
  }

  function Digits(n: nat, base: nat): (s: string)
    requires 2 <= base <= 36
    ensures |s| > 0
    ensures forall i :: 0 <= i < |s| ==> IsDigit(s[i], base)
  {
    if n < base then [DigitChar(n)]
    else
      Shrinks(n, base);
      Digits(n / base, base) + [DigitChar(n % base)]
  }

  /** Reads the longest run of digits at the front of `s`; `acc` is the number read so far. */
  function ReadNumber(s: string, base: nat, acc: nat := 0): (r: (nat, string))
    ensures |r.1| <= |s|
  {
    if s == "" || !IsDigit(s[0], base) then (acc, s)
    else ReadNumber(s[1..], base, acc * base + DigitValue(s[0]))
  }

  lemma {:induction false} ReadDigits(n: nat, base: nat, t: string)
    requires 2 <= base <= 36
    ensures ReadNumber(Digits(n, base) + t, base) == ReadNumber(t, base, n)
  {
    if n < base {
      assert (Digits(n, base) + t)[1..] == t;
      assert 0 * base + n == n;
    } else {
      Shrinks(n, base);
      var last := [DigitChar(n % base)];
      assert (last + t)[1..] == t;
      ReadDigits(n / base, base, last + t);
      assert Digits(n, base) + t == Digits(n / base, base) + (last + t);
    }
  }

  lemma {:induction false} ReadBack(n: nat, base: nat, t: string)
    requires 2 <= base <= 36
    requires t == "" || !IsDigit(t[0], base)
    ensures ReadNumber(Digits(n, base) + t, base) == (n, t)
  {
    ReadDigits(n, base, t);
  }

  lemma {:induction false} DigitsInjective(m: nat, n: nat, base: nat)
    requires 2 <= base <= 36
    requires Digits(m, base) == Digits(n, base)
    ensures m == n
  {
    ReadBack(m, base, "");
    ReadBack(n, base, "");
  }
}
