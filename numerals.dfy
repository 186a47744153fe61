/**
 * Decimal numerals as both code bases read and write them: C++ `std::stoi`
 * (leading white space, optional sign, longest digit prefix, 32-bit range)
 * and `str(int)` / `std::to_string` (shortest decimal form).
 */
module Numerals {
  import opened Optional
  import Tokenizer

  predicate IsDigit(c: char) { '0' <= c <= '9' }

  predicate AllDigits(s: string) { forall k :: 0 <= k < |s| ==> IsDigit(s[k]) }

  function DigitValue(c: char): nat
    requires IsDigit(c)
  {
    (c as int - '0' as int) as nat
  }

  function DigitChar(d: nat): (c: char)
    requires d < 10
    ensures IsDigit(c) && DigitValue(c) == d
  {
    ('0' as int + d) as char
  }

  /** The number a string of digits denotes. */
  function Value(s: string): nat
    requires AllDigits(s)
  {
    if s == [] then 0 else Value(s[..|s| - 1]) * 10 + DigitValue(s[|s| - 1])
  }

  /** `str(n)` for a non-negative n. */
  function NatToString(n: nat): (s: string)
    ensures s != [] && AllDigits(s)
  {
    if n < 10 then [DigitChar(n)] else NatToString(n / 10) + [DigitChar(n % 10)]
  }

  /** `str(i)` / `std::to_string(i)`. */
  function IntToString(i: int): string
  {
    if i < 0 then "-" + NatToString(-i) else NatToString(i)
  }

  lemma {:induction false} ValueOfNatToString(n: nat)
    ensures Value(NatToString(n)) == n
  {
    if n >= 10 {
      ValueOfNatToString(n / 10);
      var s := NatToString(n);
      assert s[..|s| - 1] == NatToString(n / 10);
    }
  }

  /** Number of leading characters of s satisfying IsDigit. */
  function DigitPrefix(s: string): (n: nat)
    ensures n <= |s| && AllDigits(s[..n])
    ensures n < |s| ==> !IsDigit(s[n])
  {
    if s == [] || !IsDigit(s[0]) then 0
    else
      var n := 1 + DigitPrefix(s[1..]);
      assert s[..n] == [s[0]] + s[1..][..n - 1];
      n
  }

  const IntMin: int := -0x8000_0000
  const IntMax: int := 0x7FFF_FFFF

  /**
   * `std::stoi(s)`: None stands for the exception thrown when no digit
   * follows the optional sign (std::invalid_argument) or the value does not
   * fit in an `int` (std::out_of_range). Characters after the digits are ignored.
   */
  function Stoi(s: string): (r: Option<int>)
    ensures r.Some? ==> IntMin <= r.value <= IntMax
  {
    StoiSkip(s)
  }

  /** Leading white space is skipped one character at a time. */
  function StoiSkip(s: string): (r: Option<int>)
    ensures r.Some? ==> IntMin <= r.value <= IntMax
  {
    if s != [] && Tokenizer.IsSpace(s[0]) then StoiSkip(s[1..]) else StoiSigned(s)
  }

  /** An optional sign, then the longest run of digits, which must be non-empty and fit in an `int`. */
  function StoiSigned(t: string): (r: Option<int>)
    ensures r.Some? ==> IntMin <= r.value <= IntMax
  {
    var negative := t != [] && t[0] == '-';
    var u := if t != [] && (t[0] == '-' || t[0] == '+') then t[1..] else t;
    var n := DigitPrefix(u);
    if n == 0 then None
    else
      var v := if negative then -(Value(u[..n]) as int) else Value(u[..n]) as int;
      if IntMin <= v <= IntMax then Some(v) else None
  }

  /** An empty string holds no digit: `std::stoi("")` throws. */
  lemma StoiEmpty()
    ensures Stoi("") == None
  {
    assert DigitPrefix("") == 0;
  }

  /** `std::stoi(std::to_string(i)) == i` on the `int` range. */
  lemma StoiOfIntToString(i: int)
    requires IntMin <= i <= IntMax
    ensures Stoi(IntToString(i)) == Some(i)
  {
    var s := IntToString(i);
    var d := NatToString(if i < 0 then -i else i);
    ValueOfNatToString(if i < 0 then -i else i);
    assert DigitPrefix(d) == |d|;
    assert d[..|d|] == d;
    if i < 0 {
      assert s[1..] == d;
    }
  }
}
