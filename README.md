# Matrix calculator core in Dafny

This project models three numeric components of the matrix calculator and
proves properties about them. Every scalar is a Dafny `real`. The program
computes with arbitrary-precision decimals (`BigDecimal`) or a generic `T`,
and exact reals stand in for both.

- `complex.dfy` (module `ComplexNumbers`): the `Complex` value type with
  conjugate, `+`, `-`, `*` and `/`. Also `complex_pow` (repeated
  multiplication), `to_polar`, `from_polar` and the polar `pow`.
- `series.dfy` (module `Series`): the real-valued helpers of `Complex`.
  - `fast_pow` (binary exponentiation);
  - `normalize_angle`, with the program's 30-digit pi;
  - the truncated Taylor sums `calc_cos` and `calc_sin`;
  - the five-branch `calc_arctan`.
- `equation.dfy` (module `Equation`): `EquationWithDegrees` and the
  Durand–Kerner helpers `new`, `initial_roots`, `calc_eq` and
  `calc_root_prods`.
- `matrix_spec.dfy` (module `MatrixSpec`): the mathematics of the dense
  matrix. It defines:
  - a matrix as a row sequence, and how a row-major buffer reads as one;
  - transpose, row swap, element-wise operations and the product;
  - the cofactor sign pattern and minors;
  - Gaussian elimination (`Step`, `Triangulate`), the determinant and the
    adjugate inverse;
  - the lemmas about all of these.
- `matrix.dfy` (module `Matrices`): the `Matrix` class.
  - Its `data: seq<real>` buffer is updated in place by `Set` and
    `SwapRows`.
  - A ghost `model` holds the matrix that the buffer represents.
  - Every method is proved to compute the `MatrixSpec` function of its
    inputs.

The loops of the program stay loops: `FastPow`, `CalcCos`/`CalcSin`,
`CalcArctan`, `ComplexPow`, `InitialRoots`, `CalcEq`, `CalcRootProds`, and
every loop of the matrix methods. Each carries the invariant that ties it
to a specification function. The nested loops of the matrix code are split
into one method per loop level, so that each proof stays small.

Elimination takes a `PivotRule`:
- `SignedAsWritten` is the pivot comparison of the program
  (`item > pivot || 0 - item > pivot`);
- `ByMagnitude` is partial pivoting on absolute values.

The methods work under either rule. See "## Findings" for why the two
differ.

In the matrix code, a division by zero in the program becomes an explicit
`Err` outcome:
- `PivotIsZero(col)` for a zero pivot with rows left below it;
- `MinorFails` when the determinant of a minor stops that way;
- `DeterminantIsZero` when the determinant is zero in `inverse`.

## Model

| member | source | states |
|---|---|---|
| ComplexNumbers.Conjugate | matrix_calculator2/matrix/src/complex.rs:36-41 | `conjugate`, defined by its body (real part kept, imaginary part negated); its laws are ConjugateInvolutive, ConjugateMul and MulConjugate |
| ComplexNumbers.Add | matrix_calculator2/matrix/src/complex.rs:187-196 | the `Add` impl, defined by its body (component-wise sum); its laws are AddLaws, AddSubCancel and MulDistributes |
| ComplexNumbers.Sub | matrix_calculator2/matrix/src/complex.rs:198-207 | the `Sub` impl, defined by its body (component-wise difference); AddSubCancel proves it undoes Add |
| ComplexNumbers.Mul | matrix_calculator2/matrix/src/complex.rs:209-218 | the `Mul` impl, defined by its body ((ac-bd)+(ad+bc)i); its laws are MulCommutative, MulAssociative, MulDistributes, MulOne, NormSqMul and MulNonZero |
| ComplexNumbers.NormSq | matrix_calculator2/matrix/src/complex.rs:225 | the denominator re²+im² of `div`, defined by its body; NormSqZero proves it non-negative and zero exactly at 0+0i |
| ComplexNumbers.Div | matrix_calculator2/matrix/src/complex.rs:220-229 | the `Div` impl through the conjugate, defined by its body; DivMulCancel and MulDivCancel prove it inverts Mul |
| ComplexNumbers.CPow | matrix_calculator2/matrix/src/complex.rs:43-49 | the value `complex_pow` computes, 1+0i multiplied by z n times, defined by its body; its laws are CPowAdd, CPowNormSq, CPowConjugate and CPowReal |
| ComplexNumbers.ConjugateInvolutive | matrix_calculator2/matrix/src/complex.rs:36-41 | conjugate keeps the real part and negates the imaginary part; applying it twice gives back the input |
| ComplexNumbers.AddSubCancel | matrix_calculator2/matrix/src/complex.rs:187-207 | component-wise `+` and `-` undo each other: (a+b)-b = a and (a-b)+b = a |
| ComplexNumbers.AddLaws | matrix_calculator2/matrix/src/complex.rs:187-196 | `+` is commutative and associative, with 0+0i as its identity |
| ComplexNumbers.MulCommutative | matrix_calculator2/matrix/src/complex.rs:209-218 | the product (ac-bd)+(ad+bc)i does not depend on operand order |
| ComplexNumbers.MulAssociative | matrix_calculator2/matrix/src/complex.rs:209-218 | the product is associative, so the order in which `complex_pow` multiplies does not matter |
| ComplexNumbers.MulDistributes | matrix_calculator2/matrix/src/complex.rs:187-218 | `*` distributes over `+` |
| ComplexNumbers.MulOne | matrix_calculator2/matrix/src/complex.rs:209-218 | 1+0i, the start value of `complex_pow` and `calc_root_prods`, is the identity of `*` on both sides |
| ComplexNumbers.NormSqMul | matrix_calculator2/matrix/src/complex.rs:209-225 | the denominator re²+im² of a product is the product of the denominators |
| ComplexNumbers.NormSqZero | matrix_calculator2/matrix/src/complex.rs:225 | the denominator re²+im² of `div` is never negative, and is zero exactly for 0+0i |
| ComplexNumbers.MulNonZero | matrix_calculator2/matrix/src/complex.rs:209-218 | the product of two non-zero numbers is non-zero |
| ComplexNumbers.MulConjugate | matrix_calculator2/matrix/src/complex.rs:36-41 | z times its conjugate is the real number re²+im² |
| ComplexNumbers.ConjugateMul | matrix_calculator2/matrix/src/complex.rs:36-41 | conjugating a product is the product of the conjugates |
| ComplexNumbers.DivMulCancel | matrix_calculator2/matrix/src/complex.rs:220-229 | when re²+im² of the divisor is non-zero, (a/b)·b = a |
| ComplexNumbers.MulDivCancel | matrix_calculator2/matrix/src/complex.rs:220-229 | when re²+im² of the divisor is non-zero, (a·b)/b = a |
| ComplexNumbers.UnitTestValues | matrix_calculator2/matrix/src/test.rs:26-59 | the unit-test values: conj(3+4i) = 3-4i, (3+4i)+(1+2i) = 4+6i, (5+7i)-(3+2i) = 2+5i, (1+2i)(3+4i) = -5+10i |
| ComplexNumbers.UnitTestDivision | matrix_calculator2/matrix/src/test.rs:61-69 | (3+2i)/(4-3i) = 6/25 + 17/25 i, exactly |
| ComplexNumbers.UnitTestPower | matrix_calculator2/matrix/src/test.rs:71-79 | (2+3i)^5 = 122-597i, exactly |
| ComplexNumbers.ComplexPow | matrix_calculator2/matrix/src/complex.rs:43-49 | the loop returns 1+0i when pow <= 0, and otherwise target multiplied into 1+0i pow times |
| ComplexNumbers.CPowAdd | matrix_calculator2/matrix/src/complex.rs:43-49 | repeated multiplication adds exponents: z^(m+n) = z^m · z^n |
| ComplexNumbers.CPowNormSq | matrix_calculator2/matrix/src/complex.rs:43-49 | re²+im² of z^n is (re²+im² of z)^n |
| ComplexNumbers.CPowConjugate | matrix_calculator2/matrix/src/complex.rs:43-49 | the power of the conjugate is the conjugate of the power |
| ComplexNumbers.CPowReal | matrix_calculator2/matrix/src/complex.rs:43-49 | on a real base, `complex_pow` agrees with the real power that `fast_pow` computes |
| ComplexNumbers.ToPolar | matrix_calculator2/matrix/src/complex.rs:59-63 | returns a non-negative r with r² = re²+im², and the angle arctan(im/re); re = 0 is excluded because that division panics |
| ComplexNumbers.PolarAngleConjugate | matrix_calculator2/matrix/src/complex.rs:59-63 | the conjugate has the negated polar angle |
| ComplexNumbers.PolarAngleValues | matrix_calculator2/matrix/src/complex.rs:59-63 | the positive real axis has angle 0, and x+xi has angle pi/4 |
| ComplexNumbers.FromPolar | matrix_calculator2/matrix/src/complex.rs:65-71 | the result is r·cos(theta) + r·sin(theta) i, with the 10-term cosine series and the sine series |
| ComplexNumbers.FromPolarConjugate | matrix_calculator2/matrix/src/complex.rs:65-71 | negating the angle conjugates the result |
| ComplexNumbers.FromPolarZeroAngle | matrix_calculator2/matrix/src/complex.rs:65-71 | angle 0 gives the real number r |
| ComplexNumbers.AsU64 | matrix_calculator2/matrix/src/complex.rs:53 | `pow as u64` is the unique value in [0, 2^64) congruent to pow modulo 2^64 |
| ComplexNumbers.PolarPow | matrix_calculator2/matrix/src/complex.rs:51-57 | the result is from_polar(r^(pow as u64), arctan(im/re)·pow) |
| ComplexNumbers.PolarPowZero | matrix_calculator2/matrix/src/complex.rs:51-57 | power 0 gives 1+0i |
| ComplexNumbers.PolarPowConjugate | matrix_calculator2/matrix/src/complex.rs:51-57 | the polar power of the conjugate is the conjugate of the polar power |
| ComplexNumbers.PowersAgreeOnPositiveReals | matrix_calculator2/matrix/src/complex.rs:43-57 | on a positive real and pow >= 0, the polar `pow` and the repeated-multiplication `complex_pow` agree |
| ComplexNumbers.PolarAngleOpposite | matrix_calculator2/matrix/src/complex.rs:59-63 | the angle as written gives z and -z the same value, so the left half-plane is folded onto the right |
| ComplexNumbers.PolarPowLosesSign | matrix_calculator2/matrix/src/complex.rs:51-63 | for every negative real x, the polar `pow` with exponent 1 returns -x + 0i, while `complex_pow` returns x + 0i |
| ComplexNumbers.QuadrantAngleConjugate | matrix_calculator2/matrix/src/complex.rs:59-63 | off the negative real axis, conjugation negates the quadrant-corrected angle, as it does the angle as written |
| ComplexNumbers.QuadrantAngleOpposite | matrix_calculator2/matrix/src/complex.rs:59-63 | under the quadrant-corrected angle, opposite non-zero points are exactly pi apart |
| Series.FastPow | matrix_calculator2/matrix/src/complex.rs:149-162 | binary exponentiation returns base^exponent, including base^0 = 1 when the base is 0 |
| Series.PowAdd | matrix_calculator2/matrix/src/complex.rs:149-162 | b^(m+n) = b^m · b^n, the fact the odd step of `fast_pow` relies on |
| Series.PowSquare | matrix_calculator2/matrix/src/complex.rs:157-158 | (b²)^n = b^(2n), the fact the squaring step relies on |
| Series.PowNeg | matrix_calculator2/matrix/src/complex.rs:73-110 | (-b)^n is b^n for even n and -b^n for odd n, the sign fact behind the even cosine and odd sine sums |
| Series.FactRStep | matrix_calculator2/matrix/src/complex.rs:79-82 | n! = (n-2)! · n(n-1), the running factorial update of `calc_cos` |
| Series.SinFactStep | matrix_calculator2/matrix/src/complex.rs:99-102 | (2t+1)! = (2t-1)! · (2t)(2t+1), the running factorial update of `calc_sin` |
| Series.NormalizableTrunc | matrix_calculator2/matrix/src/complex.rs:115 | under the precondition, the truncated ratio angle/2pi fits `to_i64` |
| Series.NormalizeAngle | matrix_calculator2/matrix/src/complex.rs:113-118 | the result lies strictly between -2pi and 2pi, is never of opposite sign to the angle, and differs from it by a whole number of turns |
| Series.NormalizeAngleOdd | matrix_calculator2/matrix/src/complex.rs:113-118 | truncation toward zero makes normalisation odd: f(-a) = -f(a) |
| Series.NormalizeSmallAngle | matrix_calculator2/matrix/src/complex.rs:113-118 | an angle in [0, 2pi) is left unchanged |
| Series.TaylorTermIs | matrix_calculator2/matrix/src/complex.rs:83-87 | the signed quotient fast_pow(y, n)/factorial added in round k is the k-th Taylor term |
| Series.CalcCos | matrix_calculator2/matrix/src/complex.rs:73-90 | the result is the sum over k < terms of (-1)^k y^(2k)/(2k)!, with y the normalised angle |
| Series.SumCosTerms | matrix_calculator2/matrix/src/complex.rs:75-88 | the loop with its running factorial (2·term)! computes that partial sum |
| Series.CalcSin | matrix_calculator2/matrix/src/complex.rs:92-110 | ignores `terms`: the result is the sum over k < 30 of (-1)^k y^(2k+1)/(2k+1)!, with y the normalised angle |
| Series.SumSinTerms | matrix_calculator2/matrix/src/complex.rs:95-108 | the loop with its running factorial (2·term+1)! computes that partial sum |
| Series.TaylorSumNeg | matrix_calculator2/matrix/src/complex.rs:73-110 | the cosine partial sum is even in y and the sine partial sum is odd |
| Series.CosEvenSinOdd | matrix_calculator2/matrix/src/complex.rs:73-110 | `calc_cos(-a)` = `calc_cos(a)` and `calc_sin(-a)` = -`calc_sin(a)` |
| Series.TaylorSumAtZero | matrix_calculator2/matrix/src/complex.rs:73-110 | at y = 0 the cosine sum is 1 (for at least one term) and the sine sum is 0 |
| Series.CosSinAtZero | matrix_calculator2/matrix/src/complex.rs:73-110 | `calc_cos(0)` = 1 for at least one term, and `calc_sin(0)` = 0 |
| Series.ReciprocalInside | matrix_calculator2/matrix/src/complex.rs:141-145 | if abs(x) > 1 then abs(1/x) < 1, so the recursive call of `calc_arctan` takes the series branch and recursion depth is one |
| Series.CalcArctan | matrix_calculator2/matrix/src/complex.rs:120-147 | follows the branch table: the 999-term odd series inside (-1, 1), pi/4 at 1, -pi/4 at -1, and -pi/2 - arctan(1/x) or pi/2 - arctan(1/x) outside |
| Series.ArctanSeriesOdd | matrix_calculator2/matrix/src/complex.rs:125-134 | the arctan series is odd in x |
| Series.ArctanOdd | matrix_calculator2/matrix/src/complex.rs:120-147 | `calc_arctan(-x)` = -`calc_arctan(x)` across all five branches |
| Series.ArctanSeriesAtZero | matrix_calculator2/matrix/src/complex.rs:125-134 | the series is 0 at x = 0 |
| Series.ArctanAtZero | matrix_calculator2/matrix/src/complex.rs:120-147 | `calc_arctan(0)` = 0 |
| Series.ArctanReciprocal | matrix_calculator2/matrix/src/complex.rs:135-145 | arctan(x) + arctan(1/x) is pi/2 for x > 0 and -pi/2 for x < 0 |
| Equation.New | matrix_calculator2/matrix/src/equation.rs:10-14 | the coefficient sequence is stored unchanged |
| Equation.SeedAngleRange | matrix_calculator2/matrix/src/equation.rs:33-35 | for 0 < i < size the seed angle 2pi·i/size lies in (0, 2pi), so normalisation leaves it unchanged |
| Equation.InitialRoots | matrix_calculator2/matrix/src/equation.rs:30-40 | returns max(size-1, 0) roots; root k is the seed for i = k+1 |
| Equation.SeedRootIsPlainSeries | matrix_calculator2/matrix/src/equation.rs:33-37 | seed i is (5-term cosine series, 30-term sine series) at 2pi·i/size, with no normalisation shift |
| Equation.AsI32 | matrix_calculator2/matrix/src/equation.rs:44 | `len as i32` keeps lengths up to 2^31-1 and otherwise wraps modulo 2^32 into the i32 range |
| Equation.SumTerms | matrix_calculator2/matrix/src/equation.rs:44-47 | the loop adds parameter[pow]·x^pow for pow from lo up to hi; the sum is empty when lo >= hi |
| Equation.CalcEq | matrix_calculator2/matrix/src/equation.rs:42-49 | the result is the sum over the range `len as i32 .. 0` |
| Equation.CalcEqIsZero | matrix_calculator2/matrix/src/equation.rs:42-49 | that range is empty, so `calc_eq` always returns 0+0i |
| Equation.CalcEqMissesConstant | matrix_calculator2/matrix/src/equation.rs:42-49 | on the constant polynomial 1, `calc_eq` returns 0 while the polynomial's value is 1 |
| Equation.PolyValueConstant | matrix_calculator2/matrix/src/equation.rs:42-49 | a constant polynomial evaluates to its constant |
| Equation.EvalPolynomial | matrix_calculator2/matrix/src/equation.rs:42-49 | the corrected loop over 0..len returns the polynomial's value sum of parameter[k]·x^k, which equals Horner's form |
| Equation.PolyValueHorner | matrix_calculator2/matrix/src/equation.rs:42-49 | the power-sum value equals Horner's nested form for every coefficient sequence |
| Equation.SquareMinusOne | matrix_calculator2/matrix/src/test.rs:98-105 | the test polynomial [-1, 0, 1] evaluates to x² - 1 |
| Equation.SquareMinusOneRoots | matrix_calculator2/matrix/src/test.rs:110-115 | its expected roots 1 and -1 are roots |
| Equation.CalcRootProds | matrix_calculator2/matrix/src/equation.rs:51-59 | the loop multiplies (current - r) into 1+0i for exactly those r that differ from current in the real or the imaginary part |
| Equation.DifferenceNonZero | matrix_calculator2/matrix/src/equation.rs:54-55 | every factor that passes the test is non-zero |
| Equation.RootProdNonZero | matrix_calculator2/matrix/src/equation.rs:51-59 | so the whole product is non-zero |
| Equation.RootProdNoneDiffer | matrix_calculator2/matrix/src/equation.rs:51-59 | when no root differs, including the empty list, the result is 1+0i |
| Equation.RootProdAppend | matrix_calculator2/matrix/src/equation.rs:51-59 | the product over a concatenation is the product of the two products |
| MatrixSpec.AreaIsProduct | matrix_calculator/src/main.rs:30 | the buffer length used throughout is rows·cols |
| MatrixSpec.IndexDistinct | matrix_calculator/src/main.rs:89-99 | two different in-range cells never share the index cols·row+col |
| MatrixSpec.BufferIndex | matrix_calculator/src/main.rs:89-99 | every buffer index i is the index of the cell (i / cols, i % cols) |
| MatrixSpec.ChunksAt | matrix_calculator/src/main.rs:10-14 | row r of a row-major buffer is the slice of cols entries starting at cols·r |
| MatrixSpec.FromBuffer | matrix_calculator/src/main.rs:10-14 | a buffer of length rows·cols reads as a well-formed rows x cols matrix |
| MatrixSpec.FromBufferAt | matrix_calculator/src/main.rs:95-99 | entry (r, c) of that matrix is data[cols·r + c] |
| MatrixSpec.FromBufferInjective | matrix_calculator/src/main.rs:10-14 | two buffers that read as the same matrix are equal |
| MatrixSpec.Zeros | matrix_calculator/src/main.rs:26-32 | the zero matrix has the given shape and every entry 0 |
| MatrixSpec.FromZeroBuffer | matrix_calculator/src/main.rs:26-32 | the default-filled buffer of length rows·cols reads as the zero matrix |
| Matrices.Matrix.New | matrix_calculator/src/main.rs:26-32 | a rows x cols matrix whose buffer reads as all zeros |
| Matrices.Matrix.Init | matrix_calculator/src/main.rs:34-38 | stores the given buffer unchecked; the object is Valid exactly when its length is rows·cols |
| Matrices.Matrix.Get | matrix_calculator/src/main.rs:95-99 | under the bounds the program asserts, returns entry (row, col) |
| MatrixSpec.SetCell | matrix_calculator/src/main.rs:89-93 | the updated matrix holds v at (r, c), and every other entry is unchanged |
| MatrixSpec.FromBufferSet | matrix_calculator/src/main.rs:89-93 | writing v at buffer index cols·r+c is, on the matrix, setting cell (r, c) to v |
| MatrixSpec.SetCellBuffer | matrix_calculator/src/main.rs:89-93 | conversely, a buffer that reads as the matrix with (r, c) set is the old buffer with index cols·r+c overwritten, and no other change |
| MatrixSpec.FromBufferSetSame | matrix_calculator/src/main.rs:89-99 | `get` after `set` on the same cell returns the value |
| MatrixSpec.FromBufferSetOther | matrix_calculator/src/main.rs:89-99 | `get` after `set` on another cell returns the old entry |
| Matrices.Matrix.Set | matrix_calculator/src/main.rs:89-93 | under the asserted bounds, the new matrix is the old one with (row, col) set to value. Together with SetCellBuffer this says the buffer changed at cols·row+col only |
| MatrixSpec.Transpose | matrix_calculator/src/main.rs:109-117 | a cols x rows matrix with result(r, c) = target(c, r) |
| MatrixSpec.TransposeInvolutive | matrix_calculator/src/main.rs:109-117 | transposing twice gives back the original |
| Matrices.Matrix.Transpose | matrix_calculator/src/main.rs:109-117 | the nested loops fill a fresh matrix with the transpose |
| MatrixSpec.SwapRows | matrix_calculator/src/main.rs:164-171 | swapping keeps the shape |
| MatrixSpec.SwapRowsAt | matrix_calculator/src/main.rs:164-171 | row i takes row j's entries, row j takes row i's, and every other row is unchanged |
| MatrixSpec.SwapRowsSelf | matrix_calculator/src/main.rs:164-171 | swapping a row with itself changes nothing |
| MatrixSpec.SwapRowsInvolutive | matrix_calculator/src/main.rs:164-171 | swapping the same two rows twice is the identity |
| Matrices.Matrix.SwapRows | matrix_calculator/src/main.rs:164-171 | the in-place column loop through a cache leaves the matrix with the two rows exchanged; with no columns nothing changes |
| MatrixSpec.Pointwise | matrix_calculator/src/main.rs:222-258 | the entry-wise sum, difference or product of two equal-shaped matrices, entry by entry |
| MatrixSpec.Scale | matrix_calculator/src/main.rs:280-290 | every entry multiplied by k |
| MatrixSpec.FromBufferPointwise | matrix_calculator/src/main.rs:239-241 | combining two buffers index by index is combining the matrices entry by entry |
| MatrixSpec.FromBufferScale | matrix_calculator/src/main.rs:285-287 | scaling the buffer index by index is scaling the matrix |
| MatrixSpec.AddSubCancel | matrix_calculator/src/main.rs:232-258 | (A + B) - B = A |
| MatrixSpec.PointwiseCommutes | matrix_calculator/src/main.rs:222-244 | `+` and the Hadamard product do not depend on operand order |
| Matrices.Matrix.Combine | matrix_calculator/src/main.rs:236-243 | the loop over the buffer writes lhs[i] op rhs[i] at every index, giving the entry-wise matrix |
| Matrices.Matrix.Hadamard | matrix_calculator/src/main.rs:222-229 | entry-wise product of equal-shaped matrices |
| Matrices.Matrix.Add | matrix_calculator/src/main.rs:232-244 | entry-wise sum of equal-shaped matrices |
| Matrices.Matrix.Sub | matrix_calculator/src/main.rs:246-258 | entry-wise difference of equal-shaped matrices |
| Matrices.Matrix.Scale | matrix_calculator/src/main.rs:280-290 | every entry multiplied by the scalar |
| MatrixSpec.DotNext | matrix_calculator/src/main.rs:270-272 | loop-proof step of RowTimesColumn: one more round of the sum loop adds lhs(i, k)·rhs(k, j) |
| MatrixSpec.Product | matrix_calculator/src/main.rs:260-278 | a rows x other.cols matrix whose entry (i, j) is the sum over k of A(i, k)·B(k, j) |
| MatrixSpec.DotIdentity | matrix_calculator/src/main.rs:269-272 | the partial sums against the identity pick out a single entry |
| MatrixSpec.IdentityProduct | matrix_calculator/src/main.rs:260-278 | I · A = A |
| Matrices.Matrix.RowTimesColumn | matrix_calculator/src/main.rs:269-272 | the inner loop returns the sum over k of lhs(i, k)·rhs(k, j) |
| Matrices.Matrix.Product | matrix_calculator/src/main.rs:260-278 | the nested loops fill a fresh matrix with the product |
| MatrixSpec.PivotOf | matrix_calculator/src/main.rs:136-144 | the pivot search returns a row at or below the diagonal, and the value it returns is that row's entry in the column |
| MatrixSpec.PivotDominates | matrix_calculator/src/main.rs:136-144 | with magnitude pivoting, the pivot is at least as large in absolute value as every candidate |
| MatrixSpec.ZeroPivotZeroColumn | matrix_calculator/src/main.rs:136-144 | with magnitude pivoting, a zero pivot means the column is zero from the diagonal down |
| Matrices.Matrix.FindPivot | matrix_calculator/src/main.rs:136-144 | the search loop computes that pivot and its row |
| MatrixSpec.PivotSwap | matrix_calculator/src/main.rs:146-149 | after the swap the chosen pivot sits on the diagonal |
| MatrixSpec.RatioOf | matrix_calculator/src/main.rs:152-153 | loop-proof step of EliminateBelow: the ratio `0 - first / pivot` computed from the current entries |
| MatrixSpec.AddScaledRowAt | matrix_calculator/src/main.rs:154-157 | row `row`, from column col on, gets ratio times the pivot row added; all other entries are unchanged |
| MatrixSpec.RowOpZero | matrix_calculator/src/main.rs:154-157 | adding 0 times the pivot row changes nothing |
| Matrices.Matrix.AddScaledRow | matrix_calculator/src/main.rs:154-157 | the column loop performs that row update in place |
| MatrixSpec.EliminateUpToNext | matrix_calculator/src/main.rs:151-159 | loop-proof step of EliminateBelow: eliminating one more row is one more row update with that row's ratio |
| MatrixSpec.EliminateRows | matrix_calculator/src/main.rs:151-159 | rows at or above the pivot and rows not yet reached are kept; each processed row is its starting row plus its own ratio times the pivot row |
| MatrixSpec.Eliminate | matrix_calculator/src/main.rs:151-159 | elimination below a non-zero pivot keeps the shape; the zeros it makes are stated by StepClearsColumn |
| Matrices.Matrix.EliminateBelow | matrix_calculator/src/main.rs:151-159 | the row loop performs the whole elimination of the column in place |
| MatrixSpec.Step | matrix_calculator/src/main.rs:135-159 | one column round keeps the shape and counts at most one swap |
| MatrixSpec.StepOk | matrix_calculator/src/main.rs:146-159 | the round succeeds unless the pivot is zero with rows left below it |
| MatrixSpec.CancelRatio | matrix_calculator/src/main.rs:152-157 | with a non-zero pivot p, x + (0 - x/p)·p = 0 |
| MatrixSpec.StepClearsColumn | matrix_calculator/src/main.rs:151-159 | a successful round leaves every entry below the diagonal in the processed column, and in the columns before it, equal to 0 |
| Matrices.Matrix.EliminateColumn | matrix_calculator/src/main.rs:135-159 | pivot search, swap and elimination of one column; it returns the swap count 0 or 1, or the failure |
| MatrixSpec.Triangulate | matrix_calculator/src/main.rs:132-162 | after k columns the shape is kept and at most k swaps are counted |
| MatrixSpec.TriangulateNext | matrix_calculator/src/main.rs:135-160 | loop-proof step of Advance: a successful round extends the result and adds its swaps to the count |
| MatrixSpec.TriangulateFails | matrix_calculator/src/main.rs:135-160 | a failing round makes the whole elimination fail with its failure |
| MatrixSpec.TriangulateStops | matrix_calculator/src/main.rs:132-162 | once elimination has failed, later columns do not change the outcome |
| MatrixSpec.TriangulateUpper | matrix_calculator/src/main.rs:132-162 | after k successful rounds every entry below the diagonal in the first k columns is 0, and at most k swaps were counted |
| MatrixSpec.PivotStaysOnDiagonal | matrix_calculator/src/main.rs:136-144 | on an upper-triangular matrix whose diagonal entry no candidate beats, the search keeps the diagonal |
| MatrixSpec.StepFixed | matrix_calculator/src/main.rs:135-159 | a round on such a matrix changes nothing and counts no swap |
| MatrixSpec.TriangulateSteady | matrix_calculator/src/main.rs:132-162 | if no round changes the matrix, elimination returns it with zero swaps |
| MatrixSpec.TriangulateFixed | matrix_calculator/src/main.rs:132-162 | an upper-triangular matrix whose diagonal entries no candidate beats is a fixed point of elimination |
| Matrices.Matrix.Advance | matrix_calculator/src/main.rs:135-160 | one round of the outer loop carries the elimination of the first col columns to col+1 columns |
| Matrices.Matrix.GetUpperTriangular | matrix_calculator/src/main.rs:132-162 | elimination on a fresh copy returns the eliminated matrix and the number of swaps, or the zero-pivot failure |
| MatrixSpec.DiagProdNext | matrix_calculator/src/main.rs:122-124 | loop-proof step of DiagonalProduct: one more round multiplies the next diagonal entry into the product |
| Matrices.Matrix.DiagonalProduct | matrix_calculator/src/main.rs:121-124 | the loop returns the product of the first cols diagonal entries |
| Matrices.Matrix.Determinant | matrix_calculator/src/main.rs:119-130 | the diagonal product of the eliminated matrix, negated exactly when the swap count is odd; the failure of elimination otherwise |
| MatrixSpec.DeterminantTriangular | matrix_calculator/src/main.rs:119-130 | an upper-triangular matrix with stable pivots has its diagonal product as determinant |
| MatrixSpec.DiagProdIdentity | matrix_calculator/src/main.rs:121-124 | every diagonal product of the identity is 1 |
| MatrixSpec.DeterminantIdentity | matrix_calculator/src/main.rs:119-130 | the identity has determinant 1 under either pivot rule |
| MatrixSpec.StepLastRow | matrix_calculator/src/main.rs:135-159 | the round on the last row neither swaps nor divides |
| MatrixSpec.DeterminantSingle | matrix_calculator/src/main.rs:119-130 | a 1 x 1 matrix has its entry as determinant |
| MatrixSpec.DiagProdEliminated | matrix_calculator/src/main.rs:151-159 | eliminating a 2 x 2 matrix with a non-zero pivot leaves the diagonal product ad - bc |
| MatrixSpec.SwappedDiagonal | matrix_calculator/src/main.rs:146-149 | after the two rows of a 2 x 2 matrix are swapped, its ad - bc is negated |
| MatrixSpec.DeterminantTwoRows | matrix_calculator/src/main.rs:119-162 | a 2 x 2 determinant is the failure of the first round, or the sign-corrected diagonal product after it |
| MatrixSpec.Determinant2x2 | matrix_calculator/src/main.rs:119-162 | whenever a 2 x 2 determinant is defined, it equals ad - bc |
| MatrixSpec.Cofactors | matrix_calculator/src/main.rs:181-193 | same shape; entries where row+col is even are copied and entries where it is odd are negated |
| MatrixSpec.CofactorsInvolutive | matrix_calculator/src/main.rs:181-193 | applying the sign pattern twice gives back the input |
| Matrices.Matrix.CofactorsRow | matrix_calculator/src/main.rs:183-191 | the inner loop fills one row of the cofactor matrix |
| Matrices.Matrix.Cofactors | matrix_calculator/src/main.rs:181-193 | the nested loops fill a fresh matrix with the cofactor sign pattern applied |
| MatrixSpec.Minor | matrix_calculator/src/main.rs:198-214 | the matrix with one row and one column deleted is (rows-1) x (cols-1) |
| MatrixSpec.Skip | matrix_calculator/src/main.rs:203-211 | the source column of result column i skips the selected column: it is i or i+1, never the selected one |
| MatrixSpec.MinorAt | matrix_calculator/src/main.rs:198-214 | entry (r, c) of the minor is target(r or r+1, c or c+1), shifted past the deleted row and column |
| Matrices.Matrix.CopyMinorRow | matrix_calculator/src/main.rs:203-212 | the inner copy loop fills one row of the minor, skipping the selected column |
| Matrices.Matrix.CopyMinor | matrix_calculator/src/main.rs:198-214 | the copy loops build exactly the minor |
| Matrices.Matrix.DeterminantOfMinor | matrix_calculator/src/main.rs:198-215 | the determinant of the copied minor |
| Matrices.Matrix.MinorsEntry | matrix_calculator/src/main.rs:198-216 | fills entry (r, c) with the determinant of its minor, and reports success exactly when that determinant exists |
| MatrixSpec.MinorsOf | matrix_calculator/src/main.rs:195-220 | entry (r, c) is the determinant of the matrix with row r and column c deleted, wherever that exists |
| MatrixSpec.MinorsDefinedNext | matrix_calculator/src/main.rs:196-218 | loop-proof step of MinorsRow: the "every minor so far has a determinant" invariant advances by one cell |
| MatrixSpec.MinorsDefinedNextRow | matrix_calculator/src/main.rs:196-218 | loop-proof step of MinorsRow: the same invariant advances by one row |
| MatrixSpec.MinorsDefinedAll | matrix_calculator/src/main.rs:196-218 | after the last row, every minor has a determinant |
| Matrices.Matrix.MinorsRow | matrix_calculator/src/main.rs:197-217 | one row of the minor matrix, or a report that some minor has no determinant |
| Matrices.Matrix.FillMinors | matrix_calculator/src/main.rs:195-220 | the loops succeed exactly when every minor has a determinant, and then hold the minor matrix |
| Matrices.Matrix.Minors | matrix_calculator/src/main.rs:195-220 | the matrix of minors, or MinorFails exactly when some minor has no determinant |
| MatrixSpec.MinorOfTwo | matrix_calculator/src/main.rs:198-214 | each minor of a 2 x 2 matrix is the 1 x 1 matrix of the opposite entry |
| MatrixSpec.Minors2x2 | matrix_calculator/src/main.rs:195-220 | the minors of [[a, b], [c, d]] are [[d, c], [b, a]] |
| MatrixSpec.MinorDeterminantsOfTwo | matrix_calculator/src/main.rs:215 | each minor determinant of a 2 x 2 matrix is the opposite entry |
| MatrixSpec.Inverse | matrix_calculator/src/main.rs:173-179 | a successful inverse has the transposed shape, and needs every minor and the matrix itself to have a determinant, with a non-zero determinant |
| Matrices.Matrix.Inverse | matrix_calculator/src/main.rs:173-179 | minors, cofactor signs, transpose, then scaling by 1/determinant; it succeeds exactly when the specification does, and returns its matrix |
| MatrixSpec.AdjugateOfMinors | matrix_calculator/src/main.rs:173-179 | for a 2 x 2 matrix, the steps of `inverse` applied to its minors give [[d, -b], [-c, a]] / (ad - bc) |
| MatrixSpec.InverseOf2x2 | matrix_calculator/src/main.rs:173-179 | whenever the 2 x 2 inverse is defined, ad - bc is non-zero and the inverse is that adjugate |
| MatrixSpec.AdjugateProductDiagonal | matrix_calculator/src/main.rs:173-179 | the diagonal entries of that adjugate times the matrix are 1 |
| MatrixSpec.AdjugateProductOffDiagonal | matrix_calculator/src/main.rs:173-179 | the off-diagonal entries of that adjugate times the matrix are 0 |
| MatrixSpec.AdjugateProduct | matrix_calculator/src/main.rs:173-179 | that adjugate times the matrix is the identity |
| MatrixSpec.Inverse2x2 | matrix_calculator/src/main.rs:173-179 | whenever the 2 x 2 inverse is defined, it times the matrix is the identity |
| MatrixSpec.SignedPivotFails | matrix_calculator/src/main.rs:140 | with the signed test as written, [[-1, 0], [0, 1]] picks the zero pivot and elimination fails; with the magnitude test its determinant is -1 |
| MatrixSpec.MagnitudeStepFails | matrix_calculator/src/main.rs:136-159 | with the magnitude test, a round fails only when the column is zero from the diagonal down |

## Left out

- `Complex::exp` uses `BigDecimal::exp`, a transcendental outside this model.
- `Complex::abs` and the magnitude in `to_polar` use `BigDecimal::sqrt`.
  - `ToPolar` and `PolarPow` take the magnitude as a parameter instead.
  - It is constrained to be the non-negative square root of re²+im².
- `Display` for `Complex` converts to `f64` for printing, and is left out.
- `Complex::new`, `Complex::init` and `from_big_decimal` build a value from
  two numbers. `init` goes through `from_f64`. All three are the datatype
  constructor `Complex(re, im)` here.
- The `print!` calls in `pow` and `from_polar` are output only and are
  left out.
- `calc_arctan` calls `round(40)` and `round(50)`, and `BigDecimal`
  division has a default precision cap. The model computes exactly; it
  does not reproduce decimal rounding.
- ComplexNumbers.Div: a zero denominator re²+im² makes the `BigDecimal`
  division panic; the model requires a non-zero denominator instead of
  returning an error.
- ComplexNumbers.ToPolar, ComplexNumbers.PolarPowOf and
  ComplexNumbers.PolarPow: the division im / re panics when re = 0; the
  model requires re != 0 and does not model that panic.
- Equation.CalcEq: when `len as i32` is negative (a length of 2^31 or more
  that wraps), the range `len as i32 .. 0` is not empty and the
  `get(pow as usize).unwrap()` panics; the model requires a non-negative
  cast and does not model that panic.
- Matrices.Matrix.Minors and Matrices.Matrix.FillMinors: for a 1 x 1
  matrix, a single column, or more columns than rows, the `determinant`
  call inside the loops fails the bounds assertion of `get`; the model
  requires no rows, no columns, or 2 <= cols <= rows and does not model that
  panic.
- Series.NormalizeAngle: the `to_i64` conversion that panics on overflow
  is a precondition (`NormalizableAngle`), not an error result.
- Series.CalcCos, Series.CalcSin: `terms` is an unbounded `nat`. The
  overflow of `2 * term` and `n * (n - 1)` in `u64` is not modelled.
- ComplexNumbers.PolarPow: `fast_pow` receives `pow as u64`, which for a
  negative `pow` is pow + 2^64. The model returns the exact real power
  r^(pow + 2^64). The program squares a `BigDecimal` about 64 times on that
  path, and each squaring roughly doubles its digits, so for a typical
  magnitude the call does not finish in practice. That running time and
  memory use are not modelled.
- Equation.InitialRoots: `size` is bounded by 2^62 so that `2 * i as i64`
  cannot overflow.
- `EquationWithDegrees::solve` (equation.rs:16-28) loops forever, because
  `under_threshold` is never set, and then reaches `todo!()`. It has no
  result to model.
- `matrix_calculator2/matrix/src/main.rs` holds a single print call and is
  not part of this model.
- The `Matrix` methods `print_matrix`, `write_to_file`,
  `random_i64_matrix`, `random_f64_matrix` and `main` are console and file
  output, random numbers and timing, and are left out.
- The `f64` instantiation of `Matrix` (floating point) is not modelled.
  `T` is `real`, and `T::default()` is 0.
- The `i64` instantiation of `Matrix` is not modelled either. For an
  integer `T`, `/` truncates, both in `first_item / pivot` (main.rs:153)
  and in `T::one() / determinant` (main.rs:177). So elimination, the
  determinant and the inverse are not exact there, while the model divides
  exactly. The only source of integer matrices is `random_i64_matrix`,
  which nothing calls.
- The complex-number code keeps its divisions as preconditions rather than
  `Err` outcomes: see the lines on ComplexNumbers.Div, ToPolar, PolarPowOf
  and PolarPow above.
- Matrices.Matrix.GetUpperTriangular: the program divides by a zero pivot.
  That panics for integer `T` and gives infinities or NaN for `f64` (NaN
  when the entry below the zero pivot is also 0, as 0/0). Here it is
  the error `PivotIsZero(col)`.
  - The swap counter is an `i64` in the program and an unbounded `nat`
    here. It is at most cols, so it cannot overflow in practice.
- Matrices.Matrix.Determinant and Matrices.Matrix.GetUpperTriangular
  require cols <= rows. With more columns than rows, the program's
  `get(col, col)` fails its bounds assertion.
  - Determinant also requires cols >= 1, because `get(0, 0)` asserts that
    bound.
- Matrices.Matrix.Inverse requires 2 <= cols <= rows.
  - A 1 x 1 matrix gives 0 x 0 minors, whose determinant fails the
    bounds assertion of `get(0, 0)`.
  - A zero determinant is the error `DeterminantIsZero`, where the program
    divides by zero.
  - A failing minor is the error `MinorFails`.
- Matrices.Matrix.Minors: the program has no separate error path here. A
  zero pivot inside a minor's determinant is the same division by zero as
  above, and is reported as `MinorFails`.
- Matrices.Matrix.Init: the program does not check the buffer length. The
  constructor accepts any buffer and says when the object is Valid, and
  the operations require Valid, which excludes both wrong lengths.
  - A buffer shorter than rows·cols makes the program panic on an
    out-of-range index.
  - A longer buffer is accepted by the program and its tail is never read:
    `get` and `set` touch only indices below rows·cols, and the
    element-wise operations loop over `0..cols*rows` into a fresh matrix.
    The model does not cover such objects.
  - The program's only call of `init` (main.rs:133) passes a matrix's own
    `data.clone()`, whose length is always rows·cols.
- The `usize` arithmetic `cols * row + col` and `rows * cols` is unbounded
  here, so its overflow is not modelled.
- The 2 x 2 results (determinant ad - bc, minors, inverse times matrix =
  identity) are proved for 2 x 2 only. General n x n algebraic identities
  for elimination, such as invariance of the determinant, are not proved.

## Findings

| source | as written | input that shows it | evidently intended | confidence | as-written member | corrected member |
|---|---|---|---|---|---|---|
| matrix_calculator2/matrix/src/equation.rs:44 | the loop runs over `len as i32 .. 0`, which is empty for every non-negative length, so `calc_eq` always returns 0+0i | parameters [1+0i] (the constant 1), any x: returns 0 instead of 1 | sum of parameter[k]·x^k for k in 0..len | high (not executed) | Equation.CalcEqMissesConstant | Equation.EvalPolynomial |
| matrix_calculator/src/main.rs:140 | the pivot test, `item > pivot` or `0 - item > pivot`, compares against the signed pivot, so a zero can replace a negative pivot | [[-1, 0], [0, 1]]: the search picks 0 over -1, swaps it onto the diagonal, then divides -1 by 0; the determinant is -1 | partial pivoting on absolute values, abs(item) > abs(pivot) | medium (not executed) | MatrixSpec.SignedPivotFails | MatrixSpec.MagnitudeStepFails |
| matrix_calculator2/matrix/src/complex.rs:61 | `to_polar` takes `calc_arctan(im / re)` with no quadrant correction, so z and -z get the same angle | x + 0i for any x < 0 (for instance -1 + 0i) with exponent 1: the polar `pow` returns -x + 0i, while `complex_pow` returns x + 0i. The two powers agree on positive reals (PowersAgreeOnPositiveReals) | the angle of atan2(im, re): pi added or subtracted in the left half-plane, and +-pi/2 on the imaginary axis | medium (not executed) | ComplexNumbers.PolarPowLosesSign | ComplexNumbers.QuadrantAngleOpposite |
