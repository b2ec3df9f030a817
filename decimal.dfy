/** Decimal text of non-negative integers: what `sprintf("%d", n)` writes for
    the CPU numbers the range formatter prints, and the reading of such text
    back into a number. */
module Decimal {

  predicate IsDigit(c: char) {
    '0' <= c <= '9'
  }

  predicate AllDigits(s: string) {
    forall k :: 0 <= k < |s| ==> IsDigit(s[k])
  }

  /** The character of the decimal digit d. */
  function DigitChar(d: nat): (c: char)
    requires d < 10
    ensures IsDigit(c) && c as int - '0' as int == d
  {
    (d + '0' as int) as char
  }

  /** The digits of n, most significant first, without leading zeros. */
  function Dec(n: nat): (s: string)
    ensures |s| >= 1 && AllDigits(s)
    ensures s[0] == '0' ==> n == 0
    decreases n
  {
    if n < 10 then [DigitChar(n)] else Dec(n / 10) + [DigitChar(n % 10)]
  }

  /** The number a string of digits denotes. */
  function Value(s: string): nat
    requires AllDigits(s)
  {
    if s == [] then 0
    else
      Value(s[..|s| - 1]) * 10 + (s[|s| - 1] as int - '0' as int)
  }

  /** The number of leading digits of s. */
  function DigitRun(s: string): (k: nat)
    ensures k <= |s| && AllDigits(s[..k])
    ensures k < |s| ==> !IsDigit(s[k])
  {
    if s == [] || !IsDigit(s[0]) then 0
    else
      var k' := DigitRun(s[1..]);
      assert s[..1 + k'] == [s[0]] + s[1..][..k'];
      1 + k'
  }

  function Pow10(k: nat): nat {
    if k == 0 then 1 else 10 * Pow10(k - 1)
  }

  /** Reading the digits of n gives n back. */
  lemma {:induction false} ValueOfDec(n: nat)
    ensures Value(Dec(n)) == n
    decreases n
  {
    if n >= 10 {
      var s := Dec(n);
      assert s[..|s| - 1] == Dec(n / 10);
      ValueOfDec(n / 10);
    }
  }

  /** A number below 10^k has at most k digits. */
  lemma {:induction false} DecLength(n: nat, k: nat)
    requires k >= 1 && n < Pow10(k)
    ensures |Dec(n)| <= k
    decreases n
  {
    if n >= 10 {
      assert k >= 2 && n / 10 < Pow10(k - 1);
      DecLength(n / 10, k - 1);
    }
  }

  /** The leading digits of Dec(n) + t are exactly those of Dec(n) when t does
      not start with a digit, so a reader stops at the end of the number. */
  lemma DigitRunOfDec(n: nat, t: string)
    requires t == [] || !IsDigit(t[0])
    ensures DigitRun(Dec(n) + t) == |Dec(n)|
    ensures (Dec(n) + t)[..|Dec(n)|] == Dec(n) && (Dec(n) + t)[|Dec(n)|..] == t
  {
  }
}
