/** Bitwise or and right shift on naturals. */
module Bits {

  /** Bitwise or of two naturals. */
  function Or(a: nat, b: nat): nat {
    if a == 0 && b == 0 then 0
    else 2 * Or(a / 2, b / 2) + (if a % 2 == 1 || b % 2 == 1 then 1 else 0)
  }

  /** Right shift by k. */
  function Shr(a: nat, k: nat): nat
    decreases k
  {
    if k == 0 then a else Shr(a / 2, k - 1)
  }

  lemma {:induction false} OrAssoc(a: nat, b: nat, c: nat)
    ensures Or(Or(a, b), c) == Or(a, Or(b, c))
    decreases a + b + c
  {
    if a != 0 || b != 0 || c != 0 {
      OrAssoc(a / 2, b / 2, c / 2);
    }
  }

  lemma {:induction false} OrZero(a: nat)
    ensures Or(0, a) == a
  {
    if a != 0 {
      OrZero(a / 2);
    }
  }

  lemma OrHalf(a: nat, b: nat)
    ensures Or(a, b) / 2 == Or(a / 2, b / 2)
  {
  }

  lemma {:induction false} OrCommutes(a: nat, b: nat)
    ensures Or(a, b) == Or(b, a)
    decreases a + b
  {
    if a != 0 || b != 0 {
      OrCommutes(a / 2, b / 2);
    }
  }

  lemma {:induction false} OrBound(a: nat, b: nat, k: nat)
    requires a < Exp2(k) && b < Exp2(k)
    ensures Or(a, b) < Exp2(k)
    decreases k
  {
    if k > 0 {
      OrBound(a / 2, b / 2, k - 1);
    }
  }

  function Exp2(k: nat): (r: nat)
    ensures r > 0
  {
    if k == 0 then 1 else 2 * Exp2(k - 1)
  }

  lemma {:induction false} OrShifts(a: nat, b: nat, k: nat)
    ensures Shr(Or(a, b), k) == Or(Shr(a, k), Shr(b, k))
    decreases k
  {
    if k > 0 {
      OrHalf(a, b);
      OrShifts(a / 2, b / 2, k - 1);
    }
  }

  lemma ShrFour(a: nat)
    ensures Shr(a, 4) == a / 16
  {
    assert Shr(a, 4) == Shr(a / 2, 3) == Shr(a / 2 / 2, 2) == Shr(a / 2 / 2 / 2, 1) == a / 2 / 2 / 2 / 2;
  }
}
