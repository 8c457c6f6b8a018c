/** The integer helpers of pbdBASE's matrix-exponential header
    (src/base/expm/matexp.h): the sign-of-power rule SGNEXP and the
    conditional minimum MIN.
 */
module MatExp {
  import opened CArith
  import opened Power

  /** SGNEXP(x, pow): the sign of x^pow, decided from the sign of x and the
      parity of pow without computing the power. 0^0 counts as 1. The parity
      test is C's `pow % 2 == 0` with C's truncating remainder. */
  function SgnExp(x: int, pow: int): (r: int)
    ensures r == -1 || r == 0 || r == 1
    ensures r == 0 <==> x == 0 && pow != 0
    ensures r == -1 ==> x < 0
  {
    if x == 0 then (if pow == 0 then 1 else 0)
    else if x > 0 then 1
    else if TruncRem(pow, 2) == 0 then 1
    else -1
  }

  /** The rule case by case, with the parity stated through Dafny's own
      (Euclidean) remainder: C's test and Dafny's agree on "pow is even",
      negative pow included. */
  lemma SgnExpCases(x: int, pow: int)
    ensures x == 0 && pow == 0 ==> SgnExp(x, pow) == 1
    ensures x == 0 && pow != 0 ==> SgnExp(x, pow) == 0
    ensures x > 0 ==> SgnExp(x, pow) == 1
    ensures x < 0 && pow % 2 == 0 ==> SgnExp(x, pow) == 1
    ensures x < 0 && pow % 2 == 1 ==> SgnExp(x, pow) == -1
  {
  }

  /** Raising the exponent by one multiplies the sign by the sign of x. */
  lemma SgnExpStep(x: int, n: nat)
    ensures SgnExp(x, n + 1) == Sign(x) * SgnExp(x, n)
  {
  }

  /** For a natural exponent SGNEXP is exactly the sign of the power. */
  lemma {:induction false} SgnExpIsSignOfPow(x: int, n: nat)
    ensures SgnExp(x, n) == Sign(Pow(x, n))
    decreases n
  {
    if n > 0 {
      SgnExpIsSignOfPow(x, n - 1);
      SignMul(x, Pow(x, n - 1));
      SgnExpStep(x, n - 1);
    }
  }

  /** For a nonzero base and a negative exponent, x^pow is the real
      1 / x^(-pow), and SGNEXP gives its sign. */
  lemma SgnExpNegativeExponent(x: int, pow: int)
    requires x != 0 && pow < 0
    ensures Pow(x, -pow) != 0
    ensures SgnExp(x, pow) == RealSign(1.0 / (Pow(x, -pow) as real))
  {
    var v := Pow(x, -pow);
    PowNonzero(x, -pow);
    SgnExpIsSignOfPow(x, -pow);
    ReciprocalSign(v as real);
    TruncRemByTwo(pow);
    TruncRemByTwo(-pow);
  }

  /** For natural exponents SGNEXP is multiplicative in the exponent, as the
      sign of x^(p+q) == x^p * x^q must be. */
  lemma SgnExpAdd(x: int, p: nat, q: nat)
    ensures SgnExp(x, p + q) == SgnExp(x, p) * SgnExp(x, q)
  {
    PowAdd(x, p, q);
    SgnExpIsSignOfPow(x, p + q);
    SgnExpIsSignOfPow(x, p);
    SgnExpIsSignOfPow(x, q);
    SignMul(Pow(x, p), Pow(x, q));
  }

  /** With a nonzero base the exponents may be any integers. (With x == 0 they
      may not: SgnExp(0, 1 + -1) == 1 while SgnExp(0, 1) * SgnExp(0, -1) == 0.) */
  lemma SgnExpAddNonzeroBase(x: int, p: int, q: int)
    requires x != 0
    ensures SgnExp(x, p + q) == SgnExp(x, p) * SgnExp(x, q)
  {
  }

  /** MIN(a, b): `a < b ? a : b`, the smaller argument, and b on a tie. */
  function Min(a: int, b: int): (m: int)
    ensures m <= a && m <= b
    ensures m == a || m == b
    ensures a == b ==> m == b
  {
    if a < b then a else b
  }

  /** Min is the greatest lower bound of its two arguments. */
  lemma MinIsGreatestLowerBound(a: int, b: int, c: int)
    ensures c <= Min(a, b) <==> c <= a && c <= b
  {
  }
}
