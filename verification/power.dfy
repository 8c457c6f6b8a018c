/** Reference definitions for the sign-of-power rule: the sign of an integer
    and of a real, and a recursive integer power with the convention x^0 = 1.
 */
module Power {

  /** The sign of an integer: 1, 0 or -1. */
  function Sign(v: int): (s: int) {
    if v > 0 then 1 else if v < 0 then -1 else 0
  }

  /** The sign of a real number: 1, 0 or -1. */
  function RealSign(v: real): (s: int) {
    if v > 0.0 then 1 else if v < 0.0 then -1 else 0
  }

  /** x raised to a natural power, by repeated multiplication; Pow(x, 0) == 1
      for every x, including x == 0. */
  function Pow(x: int, n: nat): (p: int)
    decreases n
  {
    if n == 0 then 1 else x * Pow(x, n - 1)
  }

  /** The sign of a product is the product of the signs. */
  lemma SignMul(a: int, b: int)
    ensures Sign(a * b) == Sign(a) * Sign(b)
  {
  }

  /** Exponents add: x^(p+q) == x^p * x^q. */
  lemma {:induction false} PowAdd(x: int, p: nat, q: nat)
    ensures Pow(x, p + q) == Pow(x, p) * Pow(x, q)
    decreases p
  {
    if p > 0 {
      PowAdd(x, p - 1, q);
      assert Pow(x, p + q) == x * Pow(x, (p - 1) + q);
      assert x * (Pow(x, p - 1) * Pow(x, q)) == (x * Pow(x, p - 1)) * Pow(x, q);
    }
  }

  /** A nonzero base never reaches zero. */
  lemma {:induction false} PowNonzero(x: int, n: nat)
    requires x != 0
    ensures Pow(x, n) != 0
    decreases n
  {
    if n > 0 {
      PowNonzero(x, n - 1);
      SignMul(x, Pow(x, n - 1));
    }
  }

  /** The reciprocal of a nonzero real has the same sign as the real. */
  lemma ReciprocalSign(v: real)
    requires v != 0.0
    ensures RealSign(1.0 / v) == RealSign(v)
  {
  }
}
