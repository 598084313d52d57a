/**
 Decimal text of natural numbers: `int()` applied to a run of ASCII digits and
 `str()` / f-string formatting of a non-negative integer.
 */
module Decimal {
  import opened Options

  predicate IsDigit(c: char) {
    '0' <= c <= '9'
  }

  predicate AllDigits(s: string) {
    forall i :: 0 <= i < |s| ==> IsDigit(s[i])
  }

  function DigitChar(d: nat): (c: char)
    requires d < 10
    ensures IsDigit(c)
  {
    ('0' as int + d) as char
  }

  /** `int(s)` for a string of ASCII digits (leading zeros allowed, empty is 0). */
  function Value(s: string): nat
    requires AllDigits(s)
    decreases |s|
  {
    if |s| == 0 then 0 else Value(s[..|s| - 1]) * 10 + (s[|s| - 1] as int - '0' as int)
  }

  /** `str(n)`: the shortest decimal text of `n`, read back by `Value`. */
  function Show(n: nat): (s: string)
    ensures |s| >= 1 && AllDigits(s)
    ensures Value(s) == n
    ensures s[0] == '0' ==> n == 0 && |s| == 1
    decreases n
  {
    if n < 10 then [DigitChar(n)]
    else
      var prefix := Show(n / 10);
      var s := prefix + [DigitChar(n % 10)];
      assert s[..|s| - 1] == prefix;
      s
  }

  /** The length of the leading run of digits of `s`. */
  function DigitRun(s: string): (n: nat)
    ensures n <= |s|
    ensures AllDigits(s[..n])
    ensures n == |s| || !IsDigit(s[n])
    decreases |s|
  {
    if |s| > 0 && IsDigit(s[0]) then
      var rest := DigitRun(s[1..]);
      assert s[..1 + rest] == [s[0]] + s[1..][..rest];
      1 + rest
    else 0
  }

  /** The leading digit run of digits followed by a non-digit is exactly those digits. */
  lemma DigitRunOf(d: string, tail: string)
    requires AllDigits(d)
    requires tail == [] || !IsDigit(tail[0])
    ensures DigitRun(d + tail) == |d|
  {
    if |d| > 0 {
      assert (d + tail)[1..] == d[1..] + tail;
      DigitRunOf(d[1..], tail);
    }
  }

  /** A number, a non-digit, then anything: the number is read up to the
      non-digit, and what follows is left as it was. */
  lemma DigitsThen(d: string, c: char, rest: string)
    requires AllDigits(d) && !IsDigit(c)
    ensures var s := d + [c] + rest;
      DigitRun(s) == |d| && s[..|d|] == d && s[|d|] == c && s[|d| + 1..] == rest
  {
    var s := d + [c] + rest;
    assert s == d + ([c] + rest);
    DigitRunOf(d, [c] + rest);
  }

  /** A run of at least one digit ended by `sep`: the run's value and the
      text after `sep`. */
  function NumberThen(s: string, sep: char): (r: Option<(nat, string)>)
    ensures r.Some? ==> |s| >= 2 && IsDigit(s[0]) && |r.value.1| < |s|
  {
    var n := DigitRun(s);
    if n == 0 || n == |s| || s[n] != sep then None else Some((Value(s[..n]), s[n + 1..]))
  }

  /** Digits, the separator, then anything: the digits' value and the rest. */
  lemma NumberThenOf(d: string, sep: char, rest: string)
    requires |d| >= 1 && AllDigits(d) && !IsDigit(sep)
    ensures NumberThen(d + [sep] + rest, sep) == Some((Value(d), rest))
  {
    DigitsThen(d, sep, rest);
  }

  /** All of `s` read as a number, when it is a non-empty run of digits. */
  function Number(s: string): (r: Option<nat>)
    ensures r.Some? ==> AllDigits(s) && r.value == Value(s)
  {
    if s != [] && DigitRun(s) == |s| then
      assert s[..|s|] == s;
      Some(Value(s))
    else None
  }

  lemma NumberOf(d: string)
    requires |d| >= 1 && AllDigits(d)
    ensures Number(d) == Some(Value(d))
  {
    DigitRunOf(d, []);
    assert d + [] == d;
  }
}
