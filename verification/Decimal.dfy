/** Decimal text of natural numbers, as printf writes it. */
module Decimal {
  import opened Bytes
  import opened Scan

  function DecimalText(n: nat): (t: Bytes)
    ensures t != [] && AllDigits(t)
    ensures t[0] == ZERO ==> n == 0 && |t| == 1
  {
    if n < 10 then [ZERO + n] else DecimalText(n / 10) + [ZERO + n % 10]
  }

  lemma {:induction false} DecimalValue(n: nat)
    ensures DigitsValue(DecimalText(n)) == n
  {
    var t := DecimalText(n);
    if n >= 10 {
      DecimalValue(n / 10);
      assert t[..|t| - 1] == DecimalText(n / 10);
    } else {
      assert t[..0] == [];
    }
  }

  /** Numbers below 2^31 have at most ten digits. */
  lemma {:induction false} DecimalLength(n: nat, k: nat)
    requires k > 0 && n < Pow10(k)
    ensures |DecimalText(n)| <= k
    decreases k
  {
    if n >= 10 {
      DecimalLength(n / 10, k - 1);
    }
  }

  function Pow10(k: nat): nat { if k == 0 then 1 else 10 * Pow10(k - 1) }
}
