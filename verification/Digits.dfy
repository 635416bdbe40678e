/** Strings of ASCII decimal digits and the numbers they denote. */
module Digits {
  predicate IsDigit(c: char) {
    '0' <= c <= '9'
  }

  predicate AllDigits(s: string) {
    forall i :: 0 <= i < |s| ==> IsDigit(s[i])
  }

  function DigitValue(c: char): (value: nat)
    requires IsDigit(c)
    ensures value <= 9
  {
    c as int - '0' as int
  }

  function NatOf(s: string): nat
    requires AllDigits(s)
  {
    if s == [] then 0 else 10 * NatOf(s[..|s| - 1]) + DigitValue(s[|s| - 1])
  }

  /** The decimal text of a number, as `toString` writes it. */
  function TextOf(n: nat): (text: string)
    ensures text != [] && AllDigits(text)
  {
    if n < 10 then ["0123456789"[n]] else TextOf(n / 10) + ["0123456789"[n % 10]]
  }

  /** It reads back as the number. */
  lemma {:induction false} TextReadsBack(n: nat)
    ensures NatOf(TextOf(n)) == n
  {
    if n >= 10 {
      TextReadsBack(n / 10);
      var (front, last) := (TextOf(n / 10), "0123456789"[n % 10]);
      assert (front + [last])[..|front|] == front && DigitValue(last) == n % 10;
    } else {
      assert TextOf(n)[..0] == "";
    }
  }
}
