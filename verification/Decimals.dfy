/** Numbers written in decimal. */
module Decimals {

  predicate IsDigit(c: char) {
    '0' <= c <= '9'
  }

  function Digit(d: nat): (c: char)
    requires d < 10
    ensures IsDigit(c)
  {
    "0123456789"[d]
  }

  function DecimalNat(n: nat): (r: string)
    ensures |r| > 0 && forall i :: 0 <= i < |r| ==> IsDigit(r[i])
  {
    if n < 10 then [Digit(n)] else DecimalNat(n / 10) + [Digit(n % 10)]
  }

  function Decimal(i: int): (r: string)
    ensures forall j :: 0 <= j < |r| ==> IsDigit(r[j]) || r[j] == '-'
  {
    if i < 0 then "-" + DecimalNat(-i) else DecimalNat(i)
  }

  /** The number that digits stand for. */
  function ValueOf(s: string): int {
    if s == [] then 0 else 10 * ValueOf(s[..|s| - 1]) + (s[|s| - 1] as int - '0' as int)
  }

  lemma {:induction false} DecimalValue(n: nat)
    ensures ValueOf(DecimalNat(n)) == n
  {
    var s := DecimalNat(n);
    if n < 10 {
      assert s[..0] == [] && ValueOf(s[..0]) == 0;
    } else {
      DecimalValue(n / 10);
      assert s[..|s| - 1] == DecimalNat(n / 10);
    }
  }

  lemma DecimalNatInjective(m: nat, n: nat)
    requires DecimalNat(m) == DecimalNat(n)
    ensures m == n
  {
    DecimalValue(m);
    DecimalValue(n);
  }

  lemma DecimalInjective(i: int, j: int)
    requires Decimal(i) == Decimal(j)
    ensures i == j
  {
    hide DecimalNat, IsDigit;
    SignShows(i);
    SignShows(j);
    if i < 0 {
      assert Decimal(i)[1..] == DecimalNat(-i) && Decimal(j)[1..] == DecimalNat(-j);
      DecimalNatInjective(-i, -j);
    } else {
      DecimalNatInjective(i, j);
    }
  }

  lemma SignShows(i: int)
    ensures |Decimal(i)| > 0 && (Decimal(i)[0] == '-' <==> i < 0)
  {
    assert i >= 0 ==> IsDigit(Decimal(i)[0]);
  }
}
