/** Decimal digits as the codecs read and write them: the ASCII digit test
    (a regular-expression `\d` without the Unicode flag), the rendering of a
    non-negative integer (template interpolation / `toString()`) and
    `Number.parseInt(s, 10)` on a non-empty run of digits. */
module Decimal {

  predicate IsDigit(c: char) {
    '0' <= c <= '9'
  }

  predicate AllDigits(s: seq<char>) {
    forall k :: 0 <= k < |s| ==> IsDigit(s[k])
  }

  predicate NoDigits(s: seq<char>) {
    forall k :: 0 <= k < |s| ==> !IsDigit(s[k])
  }

  function DigitChar(d: nat): (c: char)
    requires d < 10
    ensures IsDigit(c)
  {
    ('0' as int + d) as char
  }

  function DigitValue(c: char): (d: nat)
    requires IsDigit(c)
    ensures d < 10 && DigitChar(d) == c
  {
    c as int - '0' as int
  }

  /** Base-10 rendering of `n` without leading zeros. */
  function NatToDecimal(n: nat): (s: seq<char>)
    ensures 1 <= |s| && AllDigits(s)
    ensures n > 0 ==> s[0] != '0'
    ensures |s| == 1 <==> n < 10
  {
    if n < 10 then [DigitChar(n)] else NatToDecimal(n / 10) + [DigitChar(n % 10)]
  }

  /** The value of a run of decimal digits, most significant first. */
  function ParseDecimal(s: seq<char>): nat
    requires AllDigits(s)
  {
    if s == [] then 0 else 10 * ParseDecimal(s[..|s| - 1]) + DigitValue(s[|s| - 1])
  }

  /** Length of the maximal run of digits at the start of `s`: what a greedy
      digit-reading loop consumes. */
  function DigitRun(s: seq<char>): (k: nat)
    ensures k <= |s| && AllDigits(s[..k])
    ensures k < |s| ==> !IsDigit(s[k])
  {
    if s == [] || !IsDigit(s[0]) then 0 else 1 + DigitRun(s[1..])
  }

  /** The greedy digit run is determined by where the digits stop. */
  lemma {:induction false} DigitRunIs(s: seq<char>, k: nat)
    requires k <= |s| && AllDigits(s[..k])
    requires k < |s| ==> !IsDigit(s[k])
    ensures DigitRun(s) == k
    decreases k
  {
    if k > 0 {
      var t, digits := s[1..], s[..k];
      var tail := t[..k - 1];
      assert IsDigit(digits[0]);
      forall j | 0 <= j < |tail| ensures IsDigit(tail[j]) {
        assert tail[j] == digits[j + 1];
      }
      if k < |s| {
        assert t[k - 1] == s[k];
      }
      DigitRunIs(t, k - 1);
    } else if |s| > 0 {
      assert !IsDigit(s[0]);
    }
  }

  /** Digits followed by a non-digit: the greedy reader stops exactly at the
      end of the digits, whatever comes after. */
  lemma DigitRunOfPrefix(d: seq<char>, rest: seq<char>)
    requires AllDigits(d)
    requires rest == [] || !IsDigit(rest[0])
    ensures DigitRun(d + rest) == |d|
  {
    assert (d + rest)[..|d|] == d;
    if rest != [] {
      assert (d + rest)[|d|] == rest[0];
    }
    DigitRunIs(d + rest, |d|);
  }

  /** Parsing the rendering of a number gives the number back. */
  lemma {:induction false} ParseRender(n: nat)
    ensures ParseDecimal(NatToDecimal(n)) == n
  {
    if n >= 10 {
      var s := NatToDecimal(n);
      var prefix := NatToDecimal(n / 10);
      assert s == prefix + [DigitChar(n % 10)];
      assert s[..|s| - 1] == prefix;
      ParseRender(n / 10);
    }
  }

  /** A count of two or more is always written with fewer digits than its
      value: the run-length encoder relies on this to never lengthen text. */
  lemma {:induction false} DecimalShorterThanValue(n: nat)
    requires n >= 2
    ensures |NatToDecimal(n)| < n
  {
    if n >= 10 {
      if n / 10 >= 2 {
        DecimalShorterThanValue(n / 10);
      }
    }
  }
}
