/**
  Unsigned decimal numbers as text: Go's strconv.ParseUint(s, 10, 64), which
  reads a base-10 64-bit unsigned integer, and the `%d` verb of fmt for
  non-negative integers, which writes one.
 */
module Decimal {

  const MaxUint64: nat := 0xFFFF_FFFF_FFFF_FFFF

  /** Go's uint64. */
  type Uint64 = x: nat | x <= MaxUint64

  predicate IsDigit(c: char) {
    '0' <= c <= '9'
  }

  predicate AllDigits(s: string) {
    forall k :: 0 <= k < |s| ==> IsDigit(s[k])
  }

  function DigitValue(c: char): (d: nat)
    requires IsDigit(c)
    ensures d < 10
  {
    c as int - '0' as int
  }

  function DigitChar(d: nat): (c: char)
    requires d < 10
    ensures IsDigit(c) && DigitValue(c) == d
  {
    ('0' as int + d) as char
  }

  /** The number a string of decimal digits denotes, most significant digit
      first, without any bound on its size. */
  function Value(s: string): nat
    requires AllDigits(s)
    decreases |s|
  {
    if s == [] then 0 else Value(s[..|s| - 1]) * 10 + DigitValue(s[|s| - 1])
  }

  /** Appending a digit multiplies the value by ten and adds the digit. */
  lemma ValueSnoc(s: string, c: char)
    requires AllDigits(s) && IsDigit(c)
    ensures AllDigits(s + [c]) && Value(s + [c]) == Value(s) * 10 + DigitValue(c)
  {
    assert (s + [c])[..|s|] == s;
  }

  /** A prefix of a digit string never denotes more than the whole string. */
  lemma {:induction false} ValuePrefix(s: string, j: nat)
    requires AllDigits(s) && j <= |s|
    ensures AllDigits(s[..j]) && Value(s[..j]) <= Value(s)
    decreases |s| - j
  {
    if j < |s| {
      ValuePrefix(s, j + 1);
      assert s[..j + 1][..j] == s[..j];
    } else {
      assert s[..j] == s;
    }
  }

  /** The two ways strconv.ParseUint fails: ErrSyntax for a character that is
      not a digit (or for empty input), ErrRange for a value above 2^64 - 1. */
  datatype NumError = ErrSyntax | ErrRange

  datatype ParseResult = Parsed(value: Uint64) | Failed(err: NumError)

  /** ParseUint's loop, from position `i` with the value `acc` of `s[..i]`:
      the first non-digit stops it with ErrSyntax, and the first digit that
      takes the value past 2^64 - 1 stops it with ErrRange, whichever comes
      first. */
  function Scan(s: string, i: nat, acc: Uint64): (r: ParseResult)
    requires i <= |s| && AllDigits(s[..i]) && acc == Value(s[..i])
    ensures r.Parsed? <==> AllDigits(s) && Value(s) <= MaxUint64
    ensures r.Parsed? ==> r.value == Value(s)
    ensures r.Failed? && AllDigits(s) ==> r.err == ErrRange
    ensures forall k :: i <= k < |s| && !IsDigit(s[k]) && AllDigits(s[..k]) && Value(s[..k]) <= MaxUint64 ==>
              r == Failed(ErrSyntax)
    decreases |s| - i
  {
    if i == |s| then
      assert s[..i] == s;
      Parsed(acc)
    else if !IsDigit(s[i]) then
      Failed(ErrSyntax)
    else if acc * 10 + DigitValue(s[i]) > MaxUint64 then
      ValueSnoc(s[..i], s[i]);
      assert s[..i] + [s[i]] == s[..i + 1];
      assert AllDigits(s) ==> Value(s[..i + 1]) <= Value(s) by {
        if AllDigits(s) { ValuePrefix(s, i + 1); }
      }
      // Every longer digit prefix overflows as well, so no later non-digit
      // is reached.
      assert forall k :: i < k < |s| && AllDigits(s[..k]) ==> Value(s[..k]) > MaxUint64 by {
        forall k | i < k < |s| && AllDigits(s[..k])
          ensures Value(s[..k]) > MaxUint64
        {
          ValuePrefix(s[..k], i + 1);
          assert s[..k][..i + 1] == s[..i + 1];
        }
      }
      Failed(ErrRange)
    else
      ValueSnoc(s[..i], s[i]);
      assert s[..i] + [s[i]] == s[..i + 1];
      Scan(s, i + 1, acc * 10 + DigitValue(s[i]))
  }

  /** strconv.ParseUint(s, 10, 64): succeeds exactly on a non-empty string
      of decimal digits (no sign, no spaces, leading zeros allowed) whose
      value fits in 64 bits, and then yields that value. */
  function ParseUint(s: string): (r: ParseResult)
    ensures r.Parsed? <==> s != [] && AllDigits(s) && Value(s) <= MaxUint64
    ensures r.Parsed? ==> r.value == Value(s)
    ensures s == [] ==> r == Failed(ErrSyntax)
    ensures r.Failed? && AllDigits(s) && s != [] ==> r.err == ErrRange
    ensures forall k :: 0 <= k < |s| && !IsDigit(s[k]) && AllDigits(s[..k]) && Value(s[..k]) <= MaxUint64 ==>
              r == Failed(ErrSyntax)
  {
    if s == [] then Failed(ErrSyntax) else Scan(s, 0, 0)
  }

  /** fmt's `%d` of a non-negative integer: its digits, most significant
      first, with no leading zero. */
  function FormatNat(n: nat): (s: string)
    ensures s != [] && AllDigits(s) && Value(s) == n
    ensures |s| > 1 ==> s[0] != '0'
    decreases n
  {
    if n < 10 then
      [DigitChar(n)]
    else
      var p := FormatNat(n / 10);
      ValueSnoc(p, DigitChar(n % 10));
      p + [DigitChar(n % 10)]
  }

  /** Formatting and parsing are inverse on 64-bit values. */
  lemma ParseFormat(n: Uint64)
    ensures ParseUint(FormatNat(n)) == Parsed(n)
  {
  }

  /** Distinct numbers are written differently. */
  lemma FormatNatInjective(m: nat, n: nat)
    requires FormatNat(m) == FormatNat(n)
    ensures m == n
  {
  }
}
