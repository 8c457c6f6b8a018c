# pbdBASE matrix-exponential helpers in Dafny

pbdBASE binds R to ScaLAPACK, PBLAS and BLACS for block-cyclically distributed
matrices. It also provides a matrix exponential computed by Padé approximation
and scaling-and-squaring. The header `src/base/expm/matexp.h` declares that
routine's entry points. It also defines the two pieces of logic with a visible body:

- `SGNEXP(x, pow)` gives the sign of `x^pow` without computing the power. It
  returns 1 when `x == 0` and `pow == 0` (the 0^0 = 1 convention), and 0 when
  `x == 0` and `pow != 0`. It returns 1 when `x > 0`. When `x < 0`, it returns
  1 for even `pow` and -1 for odd `pow`.
- `MIN(a, b)` is `a < b ? a : b`.

The project has three modules:

- `CArith` (`c_arith.dfy`) writes out C's `/` and `%`. These truncate toward
  zero, while Dafny's operators are Euclidean. `TruncRemByTwo` shows that the
  two remainders agree on the test `pow % 2 == 0`, negative `pow` included.
- `Power` (`power.dfy`) holds the reference definitions that SGNEXP is proved
  against. These are the sign of an integer and of a real, and a recursive
  integer power with `x^0 = 1`. It also has the helper lemmas about them:
  exponents add, and the sign of a product is the product of the signs.
- `MatExp` (`matexp.dfy`) models the two macros as `SgnExp` and `Min` and
  proves their properties.

For a value argument, `SgnExp` evaluates the parity test with C's truncating
remainder, as the macro does. The macros are untyped; the model takes their
arguments as integers of one signed type. With such arguments neither macro
does arithmetic that can overflow, so no wrap-around needs modelling. `Pow` is
the mathematical (unbounded) power, and it serves only as the reference.

## Model

| member | source | states |
|---|---|---|
| CArith.TruncRem | src/base/expm/matexp.h:14 | the `%` in the macro is C's remainder: quotient times divisor plus remainder gives back the dividend, the remainder is smaller than the divisor in magnitude, and it has the sign of the dividend |
| CArith.TruncRemByTwo | src/base/expm/matexp.h:14 | C's `pow % 2 == 0` holds exactly when `pow` is even in Dafny's Euclidean sense, for negative `pow` too, and a nonzero C remainder by 2 means odd |
| MatExp.SgnExp | src/base/expm/matexp.h:14 | the result is always -1, 0 or 1; it is 0 exactly when the base is 0 and the exponent is not; -1 only for a negative base |
| MatExp.SgnExpCases | src/base/expm/matexp.h:14 | SGNEXP(0,0) is 1; SGNEXP(0,pow) is 0 for every pow other than 0; a positive base gives 1 for every pow; a negative base gives 1 for even and -1 for odd pow, negative pow included |
| MatExp.SgnExpStep | src/base/expm/matexp.h:14 | raising a natural exponent by one multiplies SGNEXP by the sign of the base |
| MatExp.SgnExpIsSignOfPow | src/base/expm/matexp.h:14 | for every integer base and natural exponent, SGNEXP equals the sign of the recursively defined power x^n with x^0 = 1 |
| MatExp.SgnExpNegativeExponent | src/base/expm/matexp.h:14 | for a nonzero base and a negative exponent, x^-pow is nonzero and SGNEXP is the sign of the real 1 / x^-pow |
| MatExp.SgnExpAdd | src/base/expm/matexp.h:14 | for natural p and q, SGNEXP(x, p+q) == SGNEXP(x, p) * SGNEXP(x, q) |
| MatExp.SgnExpAddNonzeroBase | src/base/expm/matexp.h:14 | with a nonzero base the same product rule holds for all integer exponents |
| MatExp.Min | src/base/expm/matexp.h:15 | MIN(a, b) is at most a and at most b, is one of the two, and is b when they are equal |
| MatExp.MinIsGreatestLowerBound | src/base/expm/matexp.h:15 | a value is at most MIN(a, b) exactly when it is at most both a and b |

## Left out

- The ScaLAPACK and pbdBASE prototypes `pdgemm_`, `pdlacpy_`, `pdims_` and
  `l2gpair_` (src/base/expm/matexp.h:5-10) are declarations of foreign Fortran
  and C routines with no body here.
- The Padé and power routines `dmat_matexp_pade`, `matpow_by_squaring`,
  `p_matexp_pade` and `p_matpow_by_squaring` (src/base/expm/matexp.h:19-23)
  appear only as prototypes. Their bodies are not part of this model. They
  work on double-precision buffers and block-cyclic descriptors, which means
  floating point and inter-process collectives.
- The coefficient table `matexp_pade_coefs` (src/base/expm/matexp.h:27) is an
  `extern` table of doubles whose values are not part of this model.
- The BLACS reduction wrappers in src/base_mpi_blacs_reductions.c copy R
  objects and call BLACS collectives (sum, max, min, send, receive). That is
  R marshalling and inter-process communication, with no local logic.
- `R_PDTRAN` and `R_PDGEMM` in src/base_pblas_level3.c pass their arguments
  straight to the Fortran PBLAS routines. These are foreign calls on
  floating-point distributed matrices.
- MatExp.SgnExp: models the macro applied to single integer values only. The
  macro does not parenthesise its parameters, so a compound argument binds
  inside the macro's `%`, `==` and `>`: `SGNEXP(-1, n+1)` tests `n + (1%2) == 0`,
  which for n = 1 gives -1 where `SgnExp(-1, 2)` is 1. The macro evaluates `x`
  twice whenever `x != 0`, and evaluates `pow` at most once: not at all when
  `x > 0`, so `SGNEXP(x, i++)` leaves `i` unchanged for a positive `x`. A
  floating-point `x` is not modelled either: a NaN `x` fails both `x==0` and
  `x>0` and so gets ±1 from the parity of `pow`, and `-0.0` counts as zero. Nor
  are arguments of mixed signed and unsigned type. None of these effects is
  modelled.
- MatExp.Min: models the macro applied to single integer values only. For
  integers, "returns b on a tie" cannot be told apart from returning a. The
  macro does not parenthesise its parameters, so a compound argument binds
  inside its `<` and `?:`; it also evaluates the chosen argument twice.
  Floating-point arguments are not modelled (`MIN(NaN, b)` gives `b`), nor are
  mixed signed and unsigned arguments, which go through C's usual arithmetic
  conversions (`MIN(-1, 1u)` is `1u`). None of these effects is modelled.
- SGNEXP with `x == 0` and a negative `pow` returns 0, even though 0^pow is
  undefined there. The model keeps this behaviour and claims no power for it.
