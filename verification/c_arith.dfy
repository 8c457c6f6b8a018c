/** C integer division semantics that the matrix-exponential header relies on.

    C's `/` truncates toward zero and `%` takes the sign of the dividend, so that
    `(a / b) * b + a % b == a` (section 6.5.5 of ISO/IEC 9899). Dafny's own `/`
    and `%` are Euclidean, so the C operators are written out here.
 */
module CArith {

  function Abs(a: int): (r: nat)
    ensures r == a || r == -a
  {
    if a < 0 then -a else a
  }

  /** Division of naturals by a positive divisor leaves quotient and
      remainder that recombine to the dividend. */
  lemma EuclidFacts(n: nat, d: nat)
    requires d > 0
    ensures (n / d) * d + n % d == n
    ensures 0 <= n % d < d
    ensures n / d >= 0 && (n / d) * d <= n
    ensures n / d == 0 <==> n < d
  {
  }

  /** C's `a / b`: the quotient rounded toward zero. */
  function TruncDiv(a: int, b: int): (q: int)
    requires b != 0
    ensures Abs(q) * Abs(b) <= Abs(a)
    ensures q == 0 || ((q > 0) <==> ((a > 0) == (b > 0)))
  {
    var m := Abs(a) / Abs(b);
    EuclidFacts(Abs(a), Abs(b));
    if (a >= 0) == (b > 0) then m else -m
  }

  /** C's `a % b`: the remainder left by TruncDiv. */
  function TruncRem(a: int, b: int): (r: int)
    requires b != 0
    ensures TruncDiv(a, b) * b + r == a
    ensures Abs(r) < Abs(b)
    ensures a >= 0 ==> r >= 0
    ensures a <= 0 ==> r <= 0
  {
    var m := Abs(a) % Abs(b);
    if a >= 0 then m else -m
  }

  /** The parity test `p % 2 == 0` means the same under C's truncating
      remainder as under Dafny's Euclidean one: `p` is even. */
  lemma TruncRemByTwo(p: int)
    ensures TruncRem(p, 2) == 0 <==> p % 2 == 0
    ensures TruncRem(p, 2) != 0 <==> p % 2 == 1
  {
  }
}
