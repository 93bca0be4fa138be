# Lagrange interpolation over the integers modulo a number

This project models go-lagrange-interpolation, a Go library with three parts:

- `field`: an element of the integers modulo `m`, stored as a value and a modulus, with the ring operations and division by an invertible element.
- `polynomial`: a polynomial whose coefficients are such elements, stored lowest power first. It offers degree, shrinking, addition, subtraction, multiplication, long division with remainder, Horner evaluation and equality.
- `LagrangeInterpolation`: builds the polynomial of the fewest coefficients through a list of points. It first forms `M(x) = (x - x_0)...(x - x_{n-1})`. Then, for every point, it divides `M` by `(x - x_i)`, scales the quotient by `y_i / m_i(x_i)` and adds the result.

The Dafny modules follow the library's layout:

- `Field` (field.dfy) models `field/field.go`. An element is a value datatype. The Go methods overwrite their receiver, and each becomes a pure function returning the new element.
- `Polynomials` (polynomial.dfy) models `polynomial/polynomial.go`. A polynomial is a class with the fields `modulus` and `coefficients`. Its methods reassign those fields as the library does. The loops of `Multiply`, `DivMod` and `EvaluateAt` are kept as loops: over a buffer `array` where the library mutates a slice in place, with invariants.
- `Coefficients` (coefficients.dfy) holds the functions on coefficient sequences that specify each method. It also holds the lemmas about those functions:
  - evaluation of sums, differences and products;
  - the division identity and the bound on the remainder;
  - the equality finding.
- `PolyMath` (polymath.dfy) is integer polynomial algebra used in the proofs: coefficients, evaluation, convolution, products of linear factors, and uniqueness of division.
- `ModArith` (modarith.dfy) holds facts about `%`, the extended Euclidean algorithm and inverses. The library's `big.Int.Mod` is Euclidean, as Dafny's `%` is, so no sign adjustment is needed.
- `Interpolation` (interpolation.dfy) models `interpolation.go`. `LagrangeInterpolation` returns the library's two errors (no points, modulus mismatch). On every other input it returns a polynomial that passes through every point modulo the modulus, has at most one coefficient per point and has no trailing zero. The model also requires the input to be solvable: the modulus is greater than one, and every `m_i(x_i)` has an inverse. When some `m_i(x_i)` has no inverse, `ModInverse` returns nil and the library panics. A modulus of one or a negative modulus does not make the library panic, but the model does not cover those moduli (see "## Left out"). Modulo a prime, solvable is shown to mean pairwise distinct `x` values. The interpolant is unique, so interpolating samples of a polynomial recovers that polynomial.

## Model

| member | source | states |
|---|---|---|
| Field.NewZero | field/field.go:16-18 | the zero element of the given modulus |
| Field.Add | field/field.go:53-63 | the sum keeps the operands' modulus and is reduced into `[0, m)` |
| Field.AddIsResidue | field/field.go:53-63 | the sum differs from the integer sum by a multiple of the modulus |
| Field.AddCommutative | field/field.go:53-63 | `a + b == b + a` |
| Field.AddAssociative | field/field.go:53-63 | `(a + b) + c == a + (b + c)` |
| Field.Subtract | field/field.go:65-76 | computing `(m + a - b) mod m` gives the reduced residue of `a - b` |
| Field.SubtractAddRoundTrip | field/field.go:53-76 | `(a - b) + b` is the residue of `a` |
| Field.Multiply | field/field.go:78-88 | the product keeps the modulus and is reduced |
| Field.MultiplyIsResidue | field/field.go:78-88 | the product differs from the integer product by a multiple of the modulus |
| Field.MultiplyCommutative | field/field.go:78-88 | `a * b == b * a` |
| Field.MultiplyAssociative | field/field.go:78-88 | `(a * b) * c == a * (b * c)` |
| Field.MultiplyDistributes | field/field.go:53-88 | `a * (b + c) == a * b + a * c` |
| Field.Inverse | field/field.go:103-109 | for an invertible element, a reduced value that multiplies it to 1 |
| Field.InverseUnique | field/field.go:103-109 | any reduced element multiplying `a` to 1 is `Inverse(a)` |
| Field.InvertibleIffCoprime | field/field.go:103-109 | an inverse exists exactly when the value is coprime to the modulus, which is when `ModInverse` succeeds |
| Field.InvertibleCongruent | field/field.go:103-109 | invertibility depends only on the residue of the value |
| Field.PrimeInvertible | field/field.go:103-109 | modulo a prime, every non-zero residue is invertible |
| Field.DivideBy | field/field.go:90-101 | the quotient times the divisor is the dividend modulo `m` |
| Field.Negative | field/field.go:111-118 | computing `(m - a) mod m` gives the reduced residue of `-a` |
| Field.AddNegativeIsZero | field/field.go:111-118 | `a + (-a)` is zero, and the negative of zero is zero |
| Field.IsZeroMeansDivisible | field/field.go:120-122 | for a reduced element, `IsZero` holds exactly when the value is divisible by the modulus |
| Field.IsZeroUnreduced | field/field.go:120-122 | an unreduced multiple of the modulus, such as 7 mod 7, is not reported zero, although adding zero reduces it to zero |
| Field.EqualsIsIdentity | field/field.go:124-126 | `Equals` holds exactly for equal (value, modulus) pairs |
| ModArith.BezoutInverse | field/field.go:103-109 | the extended Euclidean coefficient is an inverse modulo `m` for a value coprime to `m` |
| ModArith.InverseCoprime | field/field.go:103-109 | a value with an inverse modulo `m` is coprime to `m` |
| Polynomials.NewZero | polynomial/polynomial.go:19-24 | a fresh polynomial with the modulus and no coefficients |
| Polynomials.Polynomial.constructor | polynomial/polynomial.go:13-17 | a polynomial literal holds exactly the given modulus and coefficients, and is `Valid` when they are well formed |
| Polynomials.Polynomial.Clone | polynomial/polynomial.go:62-71 | a fresh polynomial with the same modulus and coefficients |
| Polynomials.Polynomial.Degree | polynomial/polynomial.go:82-92 | the index of the highest non-zero coefficient, `-1` when none; every coefficient above it is zero |
| Coefficients.DegreeOf | polynomial/polynomial.go:82-92 | `-1 <= d < len`, the coefficient at `d` is non-zero and all above it are zero |
| Coefficients.DegreeOfValues | polynomial/polynomial.go:82-92 | the degree depends only on the coefficient values |
| Polynomials.Polynomial.IsZero | polynomial/polynomial.go:94-96 | true exactly when every stored value is zero |
| Polynomials.Polynomial.LeadingTermCoefficient | polynomial/polynomial.go:98-105 | the coefficient at the degree, non-zero; the zero element for the zero polynomial |
| Coefficients.LeadingCoefficient | polynomial/polynomial.go:98-105 | non-zero exactly when the degree is non-negative, and carries the modulus |
| Polynomials.Polynomial.Shrink | polynomial/polynomial.go:107-114 | the coefficients become their shrunk prefix, the modulus is unchanged, and `Valid` is kept |
| Coefficients.Shrunk | polynomial/polynomial.go:107-114 | a non-empty prefix with the same degree, no trailing zero (except a lone one), and only zeros cut off |
| Coefficients.ShrunkIdempotent | polynomial/polynomial.go:107-114 | shrinking twice is shrinking once |
| Coefficients.ShrunkCoef | polynomial/polynomial.go:107-114 | shrinking keeps every coefficient value |
| Coefficients.ShrunkEval | polynomial/polynomial.go:107-114 | shrinking keeps the value at every point |
| Coefficients.ShrunkUnique | polynomial/polynomial.go:107-114 | two shrunk sequences with the same coefficient values are equal |
| Polynomials.Polynomial.Negative | polynomial/polynomial.go:116-127 | the receiver gets the operand's modulus and the negation of each coefficient under that coefficient's own modulus; it is `Valid` when the operand was |
| Coefficients.NegCoeffs | polynomial/polynomial.go:116-127 | same length, each coefficient the reduced residue of the negated one |
| Coefficients.NegEval | polynomial/polynomial.go:116-127 | the negation evaluates to minus the original modulo `m` |
| Coefficients.AddNegCancels | polynomial/polynomial.go:116-150 | `p + (-p)` is the zero polynomial `[0]` |
| Polynomials.Polynomial.CoefficientAt | polynomial/polynomial.go:129-135 | the stored coefficient below the length, the zero element above it |
| Coefficients.CoefficientAt | polynomial/polynomial.go:129-135 | its value is the coefficient of `x^i`, zero past the end |
| Polynomials.Polynomial.Add | polynomial/polynomial.go:137-150 | the receiver becomes the shrunk coefficient-wise sum under the operands' modulus, and is `Valid` |
| Coefficients.AddCoeffs | polynomial/polynomial.go:139-143 | length `max(len a, len b)`, reduced, every coefficient the residue of the sum of the operands' coefficients |
| Coefficients.AddEval | polynomial/polynomial.go:137-150 | the sum evaluates to the sum of the values modulo `m` |
| Coefficients.AddExample | polynomial/polynomial_test.go:51-66 | the test's sum modulo 7 is `2 3 5 0 2 5` |
| Polynomials.Polynomial.Subtract | polynomial/polynomial.go:152-164 | the receiver becomes the shrunk coefficient-wise difference, and is `Valid` |
| Coefficients.SubCoeffs | polynomial/polynomial.go:154-158 | length `max`, reduced, every coefficient the residue of the difference |
| Coefficients.SubEval | polynomial/polynomial.go:152-164 | the difference evaluates to the difference of the values modulo `m` |
| Polynomials.Polynomial.Multiply | polynomial/polynomial.go:166-196 | the receiver becomes `ProductCoeffs` of the operands: `[0]` when either is zero, else the shrunk convolution; the result is `Valid` |
| Polynomials.Polynomial.ProductAccumulator | polynomial/polynomial.go:180-190 | the zero-filled buffer after the double loop holds the convolution |
| Polynomials.Polynomial.AccumulateRow | polynomial/polynomial.go:186-189 | one turn of the outer loop adds row `i` of products into the buffer |
| Polynomials.AccumulatedStep | polynomial/polynomial.go:187-188 | one in-place `coeffs[i+j] += a_i * b_j` moves the accumulation one term forward |
| Polynomials.AccumulatedRow | polynomial/polynomial.go:186-189 | finishing the inner loop finishes row `i` |
| Polynomials.AccumulatedEnd | polynomial/polynomial.go:185-190 | after every row the buffer equals the convolution |
| Polynomials.AccumulatedStart | polynomial/polynomial.go:180-183 | before any row the buffer is all zero elements |
| Coefficients.Convolution | polynomial/polynomial.go:177-190 | length `deg a + deg b + 1`, reduced, carries the modulus |
| Coefficients.ProductCoeffs | polynomial/polynomial.go:166-196 | reduced, shrunk, at most `deg a + deg b + 1` coefficients |
| Coefficients.ProductCoefficients | polynomial/polynomial.go:166-196 | coefficient `k` of the product is `sum_i a_i * b_{k-i}` modulo `m` |
| Coefficients.ProductEval | polynomial/polynomial.go:166-196 | the product evaluates to the product of the values modulo `m`, as the test checks at every point |
| PolyMath.EvConv | polynomial/polynomial.go:185-190 | the integer convolution evaluates to the product of the values |
| Polynomials.DivMod | polynomial/polynomial.go:198-248 | fresh quotient and remainder equal to `DivModCoeffs` of the operands |
| Polynomials.DivModLoop | polynomial/polynomial.go:217-245 | the buffers set up, run through the loop and shrunk give `DivModCoeffs` |
| Polynomials.LongDivisionLoop | polynomial/polynomial.go:225-234 | the downward loop over `i` leaves the buffers as `LongDivide` |
| Polynomials.DivisionTurn | polynomial/polynomial.go:226-233 | one turn sets `q_i = r_n * iv` and, when non-zero, subtracts `q_i x^i d` |
| Polynomials.SubtractMultiple | polynomial/polynomial.go:229-232 | the inner loop subtracts `c * d_j` from `r_{i+j}` for every `j <= deg d` |
| Coefficients.DivModCoeffs | polynomial/polynomial.go:198-248 | quotient and remainder carry the modulus; the quotient is reduced |
| Coefficients.ShortDivision | polynomial/polynomial.go:208-215 | when the dividend's degree is lower, quotient zero and remainder the dividend as stored satisfy the division identity |
| Coefficients.LongDivision | polynomial/polynomial.go:217-247 | otherwise the loop's result satisfies `a = q*d + r` coefficient-wise modulo `m`, with `r` vanishing from `deg d` up |
| Coefficients.DivModCorrect | polynomial/polynomial.go:198-248 | the result is always a division of `a` by `d`: the identity holds, the remainder vanishes modulo `m` from `deg d` up (below `deg d` in degree when `a` is reduced), and the quotient has at most `deg a - deg d + 1` coefficients |
| Coefficients.DivModEval | polynomial/polynomial.go:198-248 | `a(x) = q(x)*d(x) + r(x)` modulo `m` at every `x`, as the test checks |
| Coefficients.DivModDecomposes | polynomial/polynomial.go:198-248 | the integer form of the identity and remainder bound |
| Coefficients.DivModOfProduct | polynomial/polynomial.go:198-248 | dividing `a * b` by `b` gives back `a`'s coefficients with a zero remainder |
| PolyMath.DivisionUnique | polynomial/polynomial.go:198-248 | with a unit leading coefficient, any two divisions agree modulo `m` on quotient and remainder |
| Polynomials.Polynomial.DivideBy | polynomial/polynomial.go:250-255 | the receiver becomes the quotient of `DivMod`, and is `Valid` |
| Polynomials.Polynomial.Modulo | polynomial/polynomial.go:257-262 | the receiver becomes the remainder of `DivMod`, and is `Valid` |
| Polynomials.Polynomial.EvaluateAt | polynomial/polynomial.go:264-272 | Horner's loop returns the reduced residue of `sum_k c_k x^k` |
| PolyMath.HornerEv | polynomial/polynomial.go:264-272 | Horner's nesting from the degree down equals the power sum |
| Coefficients.EvaluateExample | polynomial/polynomial_test.go:24-36 | the test polynomial is 2 at 1 and 3 at 6 modulo 7 |
| Polynomials.Polynomial.Equals | polynomial/polynomial.go:274-289 | the receiver is shrunk in place, and the result compares it with `other` as stored; a `Valid` receiver stays `Valid` |
| Coefficients.EqualsAsWritten | polynomial/polynomial.go:274-289 | true only when `other` is already shrunk |
| Coefficients.EqualsAsWrittenAgreesWhenShrunk | polynomial/polynomial.go:274-289 | as written, never reports different polynomials equal, and is exact when `other` is shrunk |
| Coefficients.EqualsAsWrittenMissesTrailingZero | polynomial/polynomial.go:274-289 | `[1]` and `[1, 0]` modulo 7 are reported different |
| Polynomials.Polynomial.EqualsShrinkingBoth | polynomial/polynomial.go:274-289 | the comparison with the shrunk clone that the code builds |
| Coefficients.EqualsShrinkingBothIsPolynomialEquality | polynomial/polynomial.go:274-289 | comparing both shrunk is exactly equality of every coefficient |
| Interpolation.LagrangeInterpolation | interpolation.go:16-70 | no points gives the first error; mixed moduli give the second; otherwise a fresh polynomial under the modulus that interpolates every point |
| Interpolation.VanishingPolynomial | interpolation.go:29-43 | `M` is reduced, has at most `n + 1` coefficients, is congruent to `prod (x - x_i)`, and is monic of degree `n` |
| Interpolation.MonicOfDegree | interpolation.go:29-43 | a reduced sequence of at most `n + 1` coefficients congruent to the product of `n` linear factors has degree `n` and top coefficient 1 |
| Interpolation.LinearFactor | interpolation.go:35-41 | `temp` is `[-x_i, 1]`, of degree 1 with an invertible leading coefficient |
| Interpolation.ProductStep | interpolation.go:42 | multiplying by `temp` extends the product by one linear factor |
| Interpolation.BasisQuotientAt | interpolation.go:47-56 | `m_i = M / temp` is congruent to `prod_{j != i} (x - x_j)`, and `m_i(x_i)` is invertible |
| Interpolation.BasisQuotient | interpolation.go:55 | the quotient of `M` by `(x - x_i)` is the product without factor `i` |
| Interpolation.BasisRemainderZero | interpolation.go:55 | that division leaves no remainder |
| Interpolation.QuotientAt | interpolation.go:55-56 | `m_i` vanishes at every other `x_j` and is `prod_{j != i} (x_i - x_j)` at `x_i` |
| Interpolation.BasisTerm | interpolation.go:58-65 | `item` is `y_i` at `x_i` and zero at every other point |
| Interpolation.BasisValues | interpolation.go:58-65 | the scaled quotient takes those values at every point |
| Interpolation.SumBasisTerms | interpolation.go:45-67 | starting from zero, adding every basis term gives an interpolant |
| Interpolation.AddBasisTerm | interpolation.go:65-66 | after `f.Add(f, item)`, `f` passes through points `0..i` and is zero at the rest |
| Interpolation.AccumulateStep | interpolation.go:66 | adding the basis term moves "passes through the first `i` points" to `i + 1` |
| Interpolation.SolvableIffDistinct | interpolation.go:55-61 | modulo a prime, every `m_i(x_i)` is invertible exactly when the `x` values are pairwise distinct |
| Interpolation.InterpolantUnique | interpolation.go:16-70 | modulo a prime, two canonical interpolants of at most `n` coefficients through `n` distinct points are equal |
| Interpolation.InterpolationRecovers | interpolation_test.go:18-53 | interpolating samples of a shrunk polynomial gives it back, and `Equals` as written reports them equal |
| Interpolation.SinglePointConstant | interpolation.go:16-70 | one point gives the constant polynomial `[y mod m]` |
| PolyMath.LinProdFactor | interpolation.go:29-56 | the product of all linear factors is factor `i` times the product of the others |
| PolyMath.EvLinProd | interpolation.go:29-56 | the product of linear factors evaluates to `prod (x - x_j)` |
| PolyMath.RootsVanish | interpolation.go:16-70 | modulo a prime, a polynomial with fewer coefficients than distinct roots is zero |

## Left out

- Random constructors: `RandomField`, `CryptoRandomField`, `RandomPolynomial` and `CryptoRandomPolynomial` draw from a random source, which is not modelled. A polynomial is built from its coefficients instead.
- String methods: `String` only formats text.
- example/example.go is not part of this model.
- Field.Equals: the library compares the moduli as `*big.Int` pointers. Two equal moduli held in different objects compare unequal there. The model has no pointers and compares the moduli by value.
- Polynomials.Polynomial.Clone: the library copies the slice but shares each coefficient's `big.Int` objects. Values are immutable here, so the sharing is not visible.
- `Field.Clone` is the identity on a value datatype and has no member.
- Panics become preconditions:
  - mismatched moduli (both `assertSameModulus` functions);
  - division by the zero polynomial;
  - `Shrink` of an empty slice, which also covers `Add` and `Subtract` of two empty polynomials;
  - a missing inverse: `ModInverse` returns nil and the next use dereferences it;
  - a negative index passed to `CoefficientAt`, which panics on the slice index (Polynomials.Polynomial.CoefficientAt requires `0 <= index`).
- Moduli: the model requires every modulus to be greater than one. The field operations require `m > 0`, and `Field.Inverse`, `Valid` and the polynomial operations require `m > 1`. The library panics only for a modulus of zero, where `big.Int.Mod` divides by zero.
  - With a modulus of one, every residue is 0 and `ModInverse` succeeds, so the library runs.
  - With a negative modulus, `Mod` reduces modulo its absolute value and `ModInverse` accepts it, so the library also runs.
  - The model does not cover either case.
- Polynomials.Polynomial.Negative requires every coefficient's modulus to be greater than one. The library only needs non-zero moduli there; it compares no moduli.
- Polynomials.Polynomial.EvaluateAt requires `Valid`: every coefficient carries the polynomial's modulus, which is greater than one. The library needs only that the coefficients and the point share the polynomial's modulus, because `Multiply` and `Add` assert it; it does not need the modulus to exceed one.
- Interpolation.LagrangeInterpolation requires solvable points when the moduli agree, including a modulus greater than one. On points where some `m_i(x_i)` has no inverse, the library panics in `DivideBy`. On points under a modulus of one or a negative modulus, the library runs. Neither behaviour is modelled.
- Integers are unbounded as `big.Int` is, so no wrap-around arises. The `big.Int` representation is not modelled.
- Field receivers: the field methods overwrite their receiver and return it. They are modelled as pure functions that return the new element. Aliasing between a field receiver and its operands is therefore not modelled; it cannot change a result, since every operand is read before the receiver is written.
- Slices: Go's `append`-built slices are sequences. The buffers that `Multiply` and `DivMod` mutate through `coeffs[i+j].Add(...)` are arrays of element values. Each write replaces an element rather than mutating a shared `*Field`.
- Loop splits: the loops of `Multiply`, `DivMod` and `LagrangeInterpolation` are split into helper methods, one per loop or loop body, each proved against its own specification.

## Findings

| source | as written | input that shows it | evidently intended | confidence | as-written member | corrected member |
|---|---|---|---|---|---|---|
| polynomial/polynomial.go:274-289 | `Equals` shrinks a clone of `other` but then compares the shrunk receiver with the unshrunk `other` | `[1]` against `[1, 0]` modulo 7 gives false | compare with the shrunk clone, which is equality of polynomials | not executed | Coefficients.EqualsAsWrittenMissesTrailingZero | Coefficients.EqualsShrinkingBothIsPolynomialEquality |
