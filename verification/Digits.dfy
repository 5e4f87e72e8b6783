/** Decimal digits and the numbers they spell. */
module Digits {

  predicate IsDigit(c: char) { '0' <= c <= '9' }

  predicate AllDigits(s: string) { forall i :: 0 <= i < |s| ==> IsDigit(s[i]) }

  function DigitValue(c: char): nat
    requires IsDigit(c)
  {
    (c - '0') as int
  }

  /** The number spelled by the digits of `s`; any other character is passed over. */
  function ToNat(s: string): nat {
    if s == "" then 0
    else
      var front, last := s[..|s| - 1], s[|s| - 1];
      if IsDigit(last) then 10 * ToNat(front) + DigitValue(last) else ToNat(front)
  }

  function Decimal(n: nat): (r: string)
    ensures r != "" && AllDigits(r)
  {
    var digit := [(n % 10) as char + '0'];
    if n < 10 then digit else Decimal(n / 10) + digit
  }

  /** Reading back a written number gives the number. */
  lemma {:induction false} DecimalRoundTrip(n: nat)
    ensures ToNat(Decimal(n)) == n
  {
    var r := Decimal(n);
    assert DigitValue(r[|r| - 1]) == n % 10;
    if n < 10 {
      assert r[..|r| - 1] == "";
    } else {
      DecimalRoundTrip(n / 10);
      assert r[..|r| - 1] == Decimal(n / 10);
    }
  }
}
