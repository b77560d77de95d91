/**
 Decimal texts of natural numbers: digits without a leading zero, of which every number has exactly one. The printer of
 pkg/jcs/canonical.go writes it.
 */
module Decimals {
  import opened Canonical

  predicate IsDigit(c: char) {
    '0' <= c <= '9'
  }

  function DigitValue(c: char): nat
    requires IsDigit(c)
  {
    c as int - '0' as int
  }

  predicate AllDigits(d: string) {
    forall c | c in d :: IsDigit(c)
  }

  function DecimalValue(d: string): nat
    requires AllDigits(d)
  {
    if d == [] then 0 else DecimalValue(d[..|d| - 1]) * 10 + DigitValue(d[|d| - 1])
  }

  /** More digits follow a zero in front. */
  predicate LeadingZero(d: string) {
    |d| > 1 && d[0] == '0'
  }

  /** The digits of a number, as few as it has. */
  predicate DecimalText(d: string, n: nat) {
    d != "" && AllDigits(d) && !LeadingZero(d) && DecimalValue(d) == n
  }

  lemma {:induction false} DecimalIsText(n: nat)
    ensures DecimalText(Decimal(n), n)
    ensures Decimal(n)[0] == '0' ==> n == 0
  {
    if n < 10 {
    } else {
      DecimalIsText(n / 10);
      assert Decimal(n)[..|Decimal(n)| - 1] == Decimal(n / 10);
    }
  }

  lemma OneDigit(c: char)
    requires IsDigit(c)
    ensures DecimalValue([c]) == DigitValue(c) && HexDigit(DigitValue(c)) == c
  {
    assert [c][..0] == [];
  }

  /** What is printed for a number is its one and only decimal text. */
  lemma {:induction false} OnlyDecimalText(d: string, n: nat)
    ensures DecimalText(d, n) <==> d == Decimal(n)
    decreases |d|
  {
    DecimalIsText(n);
    if !DecimalText(d, n) {
    } else if |d| == 1 {
      OneDigit(d[0]);
      assert d == [d[0]];
    } else {
      var front, last := d[..|d| - 1], DigitValue(d[|d| - 1]);
      assert front[0] == d[0] && d == front + [d[|d| - 1]];
      OnlyDecimalText(front, DecimalValue(front));
      assert n / 10 == DecimalValue(front) && n % 10 == last;
      assert HexDigit(last) == d[|d| - 1];
    }
  }
}
