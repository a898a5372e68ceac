/** Decimal texts of natural numbers. */
module Decimals {

  function Decimal(n: nat): (text: string)
    ensures text != []
  {
    (if n < 10 then "" else Decimal(n / 10)) + ["0123456789"[n % 10]]
  }

  lemma {:induction false} DecimalInjective(m: nat, n: nat)
    requires Decimal(m) == Decimal(n)
    ensures m == n
  {
    var a, b := Decimal(m), Decimal(n);
    assert a[|a| - 1] == "0123456789"[m % 10] && b[|b| - 1] == "0123456789"[n % 10];
    assert a[..|a| - 1] == (if m < 10 then "" else Decimal(m / 10));
    assert b[..|b| - 1] == (if n < 10 then "" else Decimal(n / 10));
    if m >= 10 && n >= 10 {
      DecimalInjective(m / 10, n / 10);
    }
  }

  /** The number a text of digits stands for. */
  function ValueOf(text: string): int {
    if text == [] then 0 else 10 * ValueOf(text[..|text| - 1]) + (text[|text| - 1] as int - '0' as int)
  }

  /** The text has digits only, none of them a leading zero, and stands for the number. */
  lemma {:induction false} DecimalReads(n: nat)
    ensures ValueOf(Decimal(n)) == n
    ensures forall c :: c in Decimal(n) ==> '0' <= c <= '9'
    ensures n > 0 ==> Decimal(n)[0] != '0'
  {
    var text := Decimal(n);
    if n >= 10 {
      DecimalReads(n / 10);
      assert text[..|text| - 1] == Decimal(n / 10);
    } else {
      assert text[..|text| - 1] == [];
    }
  }
}
