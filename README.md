# Companion (Frobenius) matrix builder

A Dafny model of `frob_a`, the function of this lab repository that builds
the Frobenius (companion) matrix of a polynomial

    w(x) = a_n x^n + a_(n-1) x^(n-1) + ... + a_1 x + a_0

from its coefficient vector `coef`, listed from the highest power down
(`coef[0]` is a_n, `coef[n]` is a_0).  The function rejects (returns
`None`) a vector with fewer than two entries or with a zero leading
coefficient; otherwise, with n = len(coef) - 1, it returns the n-by-n
matrix that is zero everywhere except for ones on the super-diagonal and a
last row holding -a_0/a_n, -a_1/a_n, ..., -a_(n-1)/a_n.

Files:

- `frobenius.dfy`, module `Frobenius`: the input guard (`Rejected`), the
  documented layout (`IsCompanion`), a pure model of the numpy steps
  (`FrobeniusOf`: zeros, ones above the diagonal, last row replaced by the
  negated, scaled, reversed tail), and the imperative builder `FrobA`,
  which allocates an `array2<real>` of zeros and fills it with two loops,
  proved entry by entry against `FrobeniusOf`.  Also the degree-1 case and
  the two worked examples.
- `companion_roots.dfy`, module `CompanionRoots`: the eigenvector property
  behind the layout, over real x.  For every matrix with the companion layout of w, and so for
  the one `frob_a` returns, the vector (1, x, ..., x^(n-1)) is mapped to x
  times itself exactly when x is a root of w.

Entries are exact `real`s; the input is a `seq<real>`, so the caller's data
is never mutated (the source gets this by converting to a fresh float
array).

The last row follows the code and its docstring: column j holds
-coef[n-j]/coef[0] = -a_j/a_n, so -a_0/a_n comes first and
-a_(n-1)/a_n last.

## Model

| member | source | states |
|---|---|---|
| Frobenius.FrobeniusOf | main.py:59-78 | the result is None exactly when the vector has fewer than two entries or a zero leading coefficient; otherwise it is square of size len(coef) - 1 with ones at (i, i+1) for i < n-1, zeros elsewhere in rows 0..n-2, and -a_j/a_n at (n-1, j) |
| Frobenius.FrobA | main.py:39-81 | the array-building method returns None exactly on rejected input; otherwise a freshly allocated n-by-n array whose every entry equals the corresponding entry of the documented companion matrix |
| Frobenius.CompanionUnique | main.py:44-50 | the documented layout determines every entry: two matrices with the companion layout of the same coefficients are equal |
| Frobenius.LinearCase | main.py:73-78 | with two coefficients [a, b], a != 0, the super-diagonal step is skipped and the result is the 1-by-1 matrix [[-b/a]] |
| Frobenius.Degree1Example | main.py:73-78 | [2, -4] gives [[2]] |
| Frobenius.Degree2Example | main.py:69-78 | [1, -3, 2] gives [[0, 1], [-2, 3]] |
| CompanionRoots.UpperRowsScale | main.py:73-74 | each row i < n-1 of the companion matrix sends (1, x, ..., x^(n-1)) to x^(i+1) |
| CompanionRoots.LastRowValue | main.py:77-78 | the last row sends (1, x, ..., x^(n-1)) to -(a_(n-1) x^(n-1) + ... + a_0)/a_n |
| CompanionRoots.DotReversed | main.py:77-78 | a coefficient vector read backwards, against (1, x, ..., x^(m-1)), evaluates its polynomial at x |
| CompanionRoots.CompanionEigenvectorIffRoot | main.py:40-50 | any matrix with the companion layout of w maps (1, x, ..., x^(n-1)) to x times itself if and only if w(x) = 0 |
| CompanionRoots.EigenvectorIffRoot | main.py:40-50 | the matrix frob_a builds maps (1, x, ..., x^(n-1)) to x times itself if and only if x is a root of w |

## Left out

- `roots_20` (main.py:14-37): adds a random perturbation drawn from numpy's
  random source and calls numpy's floating-point root finder; randomness
  and a foreign numerical routine leave nothing to state beyond a length
  check.
- `is_nonsingular` (main.py:84-99): compares the absolute value of numpy's
  floating-point determinant with machine epsilon and catches library
  exceptions; the determinant routine and the float constant are outside
  the model.
- The `isinstance` and `ndim` checks (main.py:59-61): the input is typed as
  a one-dimensional `seq<real>`, so only the length check remains.
- Floating point (main.py:64, main.py:77): `astype(float)` and the rounding
  of -coef[k]/a_n are modelled by exact real division; NaN and infinite
  coefficients are not represented.
- That the result is a numpy array object is modelled only by `FrobA`'s
  freshly allocated `array2<real>`; `FrobeniusOf` gives the same entries as
  a sequence of rows.
- CompanionRoots.EigenvectorIffRoot: proves the eigenvector property for
  real x only; complex roots of w are not represented, because entries and
  x are `real`.
- That w is the characteristic polynomial of the matrix (det(xI - F) =
  w(x)/a_n, main.py:40-41) is not proved: the model has no determinant, and
  the eigenvector property above is what it states instead.
