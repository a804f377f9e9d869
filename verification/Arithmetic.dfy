/** Natural numbers. */
module Arithmetic {
  function Min(a: nat, b: nat): nat {
    if a < b then a else b
  }

  function Max(a: nat, b: nat): nat {
    if a < b then b else a
  }

  /** Subtraction that stops at zero. */
  function Minus(a: nat, b: nat): nat {
    if a > b then a - b else 0
  }

  lemma {:induction false} DoubleProduct(t: nat, p: nat)
    ensures t * (2 * p) == 2 * (t * p) && (p > 0 ==> t * p >= t)
  {
    if p > 0 {
      DoubleProduct(t, p - 1);
      assert t * p == t * (p - 1) + t;
    }
  }
}
