/** Decimal text of integers, as Go's strconv.Itoa writes it, together with
    the reading of a digit string back into a number (its inverse). */
module Decimal {

  predicate IsDigit(c: char) {
    '0' <= c <= '9'
  }

  predicate AllDigits(s: string) {
    forall k :: 0 <= k < |s| ==> IsDigit(s[k])
  }

  function DigitChar(d: nat): (c: char)
    requires d < 10
    ensures IsDigit(c) && c as int - '0' as int == d
  {
    ('0' as int + d) as char
  }

  /** The value of a digit character (for other characters, their distance
      from '0'). */
  function DigitValue(c: char): (d: int)
    ensures IsDigit(c) ==> 0 <= d < 10
  {
    c as int - '0' as int
  }

  /** The number a string of decimal digits denotes, most significant first
      (meaningful when AllDigits holds). */
  function Value(s: string): int {
    if s == [] then 0
    else Value(s[..|s| - 1]) * 10 + DigitValue(s[|s| - 1])
  }

  /** The shortest decimal text of a natural number: Value reads it back,
      and there is no leading zero except in "0" itself. */
  function Digits(n: nat): (r: string)
    ensures |r| >= 1 && AllDigits(r) && Value(r) == n
    ensures (r[0] == '0') == (n == 0)
    ensures n < 10 ==> |r| == 1
    ensures 10 <= n < 100 ==> |r| == 2
    ensures n >= 100 ==> |r| >= 3
    decreases n
  {
    if n < 10 then [DigitChar(n)]
    else
      var front := Digits(n / 10);
      var r := front + [DigitChar(n % 10)];
      assert r[..|r| - 1] == front;
      r
  }

  /** strconv.Itoa: an optional minus sign followed by the shortest decimal
      text of the magnitude. */
  function Itoa(x: int): (r: string)
    ensures x >= 0 ==> |r| >= 1 && AllDigits(r) && Value(r) == x && (r[0] == '0' ==> r == "0")
    ensures x < 0 ==> |r| >= 2 && r[0] == '-' && AllDigits(r[1..]) && Value(r[1..]) == -x && r[1] != '0'
    ensures 0 <= x < 10 ==> |r| == 1
    ensures 10 <= x < 100 ==> |r| == 2
    ensures x >= 100 ==> |r| >= 3
  {
    if x < 0 then
      var r := "-" + Digits(-x);
      assert r[1..] == Digits(-x);
      r
    else
      var r := Digits(x);
      assert r[0] == '0' ==> x == 0 && r == [DigitChar(0)];
      r
  }
}
