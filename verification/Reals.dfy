/** Numbers as the code handles them, and the few laws of real arithmetic that proofs call by name. */
module Reals {

  /** A JavaScript number where the code asks whether it is finite. */
  datatype Number = Finite(value: real) | NonFinite

  /** The product by name: laws about products apply to it whatever its arguments are. */
  function Times(x: real, y: real): real {
    x * y
  }

  lemma Signs(x: real, y: real)
    ensures x < 0.0 && y > 0.0 ==> Times(x, y) < 0.0
    ensures x < 0.0 && y < 0.0 ==> Times(x, y) > 0.0
    ensures x > 0.0 && y > 0.0 ==> Times(x, y) > 0.0
    ensures x > 0.0 && y < 0.0 ==> Times(x, y) < 0.0
    ensures x == 0.0 || y == 0.0 ==> Times(x, y) == 0.0
  {}

  lemma Associate(x: real, y: real, z: real)
    ensures Times(Times(x, y), z) == Times(x, Times(y, z))
  {}

  lemma Commute(x: real, y: real)
    ensures Times(x, y) == Times(y, x)
  {}

  lemma Distribute(x: real, y: real, z: real)
    ensures Times(x, y + z) == Times(x, y) + Times(x, z)
    ensures Times(x, y - z) == Times(x, y) - Times(x, z)
    ensures Times(y + z, x) == Times(y, x) + Times(z, x)
    ensures Times(y - z, x) == Times(y, x) - Times(z, x)
  {}

  lemma Negate(x: real, y: real)
    ensures Times(x, -y) == -Times(x, y) && Times(-x, y) == -Times(x, y)
  {}

  lemma QuotientIs(x: real, d: real, q: real)
    requires d != 0.0 && Times(q, d) == x
    ensures x / d == q
  {
    assert (x / d) * d == x;
    assert (x / d - q) * d == 0.0;
  }

  lemma Quotient(x: real, d: real) returns (q: real)
    requires d != 0.0
    ensures q == x / d && Times(q, d) == x
  {
    q := x / d;
  }
}
