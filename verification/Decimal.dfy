/** Decimal text as `printf` writes it, and the reading of a digit string. */
module Decimal {

  function DigitChar(d: nat): (c: char)
    requires d < 10
    ensures '0' <= c <= '9'
  {
    '0' + d as char
  }

  predicate IsDigit(c: char) { '0' <= c <= '9' }

  function DigitValue(c: char): (d: nat)
    requires IsDigit(c)
    ensures d < 10
  {
    (c - '0') as nat
  }

  predicate AllDigits(s: string) { forall i :: 0 <= i < |s| ==> IsDigit(s[i]) }

  /** "%lu" */
  function NatText(n: nat): (s: string)
    ensures s != [] && AllDigits(s)
  {
    if n < 10 then [DigitChar(n)] else NatText(n / 10) + [DigitChar(n % 10)]
  }

  /** "%d" and "%ld" */
  function IntText(i: int): (s: string)
    ensures s != []
  {
    if i < 0 then "-" + NatText(-i) else NatText(i)
  }

  /** The number a run of digits denotes. */
  function NatOf(s: string): nat
    requires AllDigits(s)
  {
    if s == [] then 0 else 10 * NatOf(s[..|s| - 1]) + DigitValue(s[|s| - 1])
  }

  lemma {:induction false} NatTextDenotes(n: nat)
    ensures NatOf(NatText(n)) == n
  {
    if n >= 10 {
      NatTextDenotes(n / 10);
      var s := NatText(n);
      assert s[..|s| - 1] == NatText(n / 10);
      assert DigitValue(DigitChar(n % 10)) == n % 10;
    }
  }

  /** Two numbers with the same decimal text are equal. */
  lemma NatTextInjective(m: nat, n: nat)
    requires NatText(m) == NatText(n)
    ensures m == n
  {
    NatTextDenotes(m);
    NatTextDenotes(n);
  }

  /** An optional minus sign and digits. */
  predicate IsNumber(s: string)
  {
    var d := if s != [] && s[0] == '-' then s[1..] else s;
    d != [] && AllDigits(d)
  }

  /** The number such a text denotes. */
  function IntOf(s: string): int
    requires IsNumber(s)
  {
    if s[0] == '-' then 0 - NatOf(s[1..]) else NatOf(s)
  }

  lemma IntTextDenotes(i: int)
    ensures IsNumber(IntText(i)) && IntOf(IntText(i)) == i
  {
    var n := NatText(if i < 0 then -i else i);
    NatTextDenotes(if i < 0 then -i else i);
    assert IsDigit(n[0]);
    assert i < 0 ==> IntText(i)[1..] == n;
  }
}
