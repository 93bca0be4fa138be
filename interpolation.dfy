/** Lagrange interpolation modulo a number, as in interpolation.go. The
    function builds `M(x) = (x - x_0) * ... * (x - x_{n-1})` by repeated
    multiplication, then for every point divides `M` by `(x - x_i)` to get
    `m_i`, scales `m_i` by `y_i / m_i(x_i)` and adds it to the result. */
module Interpolation {
  import opened ModArith
  import opened Field
  import opened PolyMath
  import opened Coefficients
  import opened Polynomials

  /** A sample `(x, y)`. */
  datatype XYPoint = XYPoint(x: Element, y: Element)

  /** The two errors `LagrangeInterpolation` returns. */
  datatype InterpolationError = NoPoints | ModulusMismatch

  datatype Outcome = Interpolated(poly: Polynomial) | Failed(error: InterpolationError)

  /** Every coordinate is taken under the modulus of the first `x`. */
  predicate SameModuli(points: seq<XYPoint>)
    requires |points| > 0
  {
    forall i :: 0 <= i < |points| ==>
      points[i].x.modulus == points[0].x.modulus && points[i].y.modulus == points[0].x.modulus
  }

  function XValues(points: seq<XYPoint>): (xs: seq<int>)
    ensures |xs| == |points| && forall i :: 0 <= i < |points| ==> xs[i] == points[i].x.value
  {
    seq(|points|, i requires 0 <= i < |points| => points[i].x.value)
  }

  function YValues(points: seq<XYPoint>): (ys: seq<int>)
    ensures |ys| == |points| && forall i :: 0 <= i < |points| ==> ys[i] == points[i].y.value
  {
    seq(|points|, i requires 0 <= i < |points| => points[i].y.value)
  }

  /** What the library needs to run to the end without a panic: a modulus
      greater than one, and for every point an inverse of
      `m_i(x_i) = prod_{j != i} (x_i - x_j)`, which `Field.DivideBy` takes. */
  predicate Solvable(points: seq<XYPoint>)
    requires |points| > 0
  {
    var p := points[0].x.modulus;
    IsModulus(p) &&
    forall i :: 0 <= i < |points| ==>
      Invertible(Element(ProdDiff(RemoveAt(XValues(points), i), points[i].x.value), p))
  }

  /** `f` is a polynomial in the library's canonical form, with at most one
      coefficient per point, passing through every point modulo `p`. */
  ghost predicate Interpolates(f: seq<Element>, points: seq<XYPoint>, p: int)
  {
    WellFormed(f, p) && AllReduced(f) && IsShrunk(f) && |f| <= |points| &&
    forall j :: 0 <= j < |points| ==> Eval(f, points[j].x.value) % p == points[j].y.value % p
  }

  /** The state of the second loop after `i` turns: `f` takes the value
      `y_j` at each of the first `i` points and vanishes at the others. */
  ghost predicate PassesThroughFirst(f: seq<Element>, points: seq<XYPoint>, i: int, p: int)
    requires p > 0
  {
    forall j :: 0 <= j < |points| ==>
      Eval(f, points[j].x.value) % p == (if j < i then points[j].y.value % p else 0)
  }

  /** The coefficients of `temp`, the polynomial `x - c`: `[-c, 1]`. */
  function LinearFactor(c: Element): (t: seq<Element>)
    requires IsModulus(c.modulus)
    ensures WellFormed(t, c.modulus) && AllReduced(t) && |t| == 2
    ensures t[0].value == (-c.value) % c.modulus && t[1].value == 1
    ensures DegreeOf(t) == 1 && Invertible(LeadingCoefficient(t, c.modulus))
  {
    var p := c.modulus;
    ModSmall(1, p);
    assert IsInverse(Element(1, p), 1);
    var low := Field.Negative(c);
    var t := [low, Element(1, p)];
    assert DegreeOf(t) == 1 by {
      assert !IsZero(t[1]);
    }
    assert LeadingCoefficient(t, p) == Element(1, p);
    t
  }

  // ---------------------------------------------------------------------------
  // Multiplying by a linear factor

  /** One row sum of a product with `[t0, 1]`, where `t0` is `-x` modulo `p`,
      is the corresponding coefficient of `(x' - x) * q`. */
  lemma {:induction false} LinearFactorRowSum(q: seq<int>, t0: int, x: int, p: int, k: nat)
    requires p > 0 && t0 % p == (-x) % p
    ensures RowSum(q, [t0, 1], 0, |q|, k) % p == Coef(LinMul(x, q), k) % p
  {
    RowSumByLinear(q, t0, 1, |q|, k);
    LinMulCoef(x, q, k);
    var u, v := Coef(q, k), Coef(q, k - 1);
    assert RowSum(q, [t0, 1], 0, |q|, k) == u * t0 + v;
    CongMul(u, u, t0, -x, p);
    CongAdd(u * t0, u * (-x), v, v, p);
    assert u * (-x) + v == v - x * u;
  }

  /** `Multiply` by `temp` multiplies by `(x - c)`, modulo `p`. */
  lemma {:induction false} TimesLinearFactor(w: seq<Element>, c: Element, p: int)
    requires IsModulus(p) && WellFormed(w, p) && c.modulus == p
    ensures Congruent(Values(ProductCoeffs(w, LinearFactor(c), p)), LinMul(c.value, Values(w)), p)
  {
    var t := LinearFactor(c);
    var t0 := t[0].value;
    ProductCoefficients(w, t, p);
    assert Values(t) == [t0, 1];
    assert t0 % p == (-c.value) % p by {
      ModSmall(t0, p);
    }
    var R := Values(ProductCoeffs(w, t, p));
    forall k: nat
      ensures Coef(R, k) % p == Coef(LinMul(c.value, Values(w)), k) % p
    {
      LinearProductCoef(R, Values(w), t0, c.value, p, k);
    }
  }

  /** A coefficient of the reduced product with `[t0, 1]` is, modulo `p`, the
      coefficient of `(x - c) * w`. */
  lemma {:induction false} LinearProductCoef(R: seq<int>, W: seq<int>, t0: int, x: int, p: int, k: nat)
    requires p > 0 && t0 % p == (-x) % p
    requires Coef(R, k) == RowSum(W, [t0, 1], 0, |W|, k) % p
    ensures Coef(R, k) % p == Coef(LinMul(x, W), k) % p
  {
    var a := RowSum(W, [t0, 1], 0, |W|, k);
    ModAddLeft(a, 0, p);
    LinearFactorRowSum(W, t0, x, p, k);
  }

  /** One turn of the first loop: `M` stays congruent to the product of the
      linear factors of the points seen, and grows by at most one coefficient. */
  lemma {:induction false} ProductStep(mc: seq<Element>, xs: seq<int>, c: Element, p: int)
    requires IsModulus(p) && WellFormed(mc, p) && c.modulus == p
    requires Congruent(Values(mc), LinProd(xs), p)
    ensures var r := ProductCoeffs(mc, LinearFactor(c), p);
            |r| <= |mc| + 1 && Congruent(Values(r), LinProd(xs + [c.value]), p)
  {
    var r := ProductCoeffs(mc, LinearFactor(c), p);
    TimesLinearFactor(mc, c, p);
    LinMulCongruent(c.value, Values(mc), LinProd(xs), p);
    assert (xs + [c.value])[..|xs|] == xs;
    assert LinProd(xs + [c.value]) == LinMul(c.value, LinProd(xs));
    forall k: nat
      ensures Coef(Values(r), k) % p == Coef(LinProd(xs + [c.value]), k) % p
    {
    }
  }

  // ---------------------------------------------------------------------------
  // Dividing out one linear factor

  /** A polynomial with at most `n + 1` coefficients whose coefficient at `n`
      is one modulo `p` has degree exactly `n`. */
  lemma {:induction false} ProductDegree(mc: seq<Element>, n: nat, p: int)
    requires IsModulus(p) && WellFormed(mc, p) && |mc| <= n + 1
    requires Coef(Values(mc), n) % p == 1
    ensures DegreeOf(mc) == n
  {
    var c := Coef(Values(mc), n);
    ModSmall(0, p);
    assert c != 0;
    assert mc[n].value == c;
  }

  /** Modulo `p`, the top coefficient of anything congruent to `LinProd(xs)` is one. */
  lemma {:induction false} TopCoefficient(v: seq<int>, xs: seq<int>, p: int)
    requires p > 1 && Congruent(v, LinProd(xs), p)
    ensures Coef(v, |xs|) % p == 1
  {
    LinProdMonic(xs);
    ModSmall(1, p);
  }

  /** A remainder of degree below one is a constant. */
  lemma {:induction false} ConstantRemainder(r: seq<Element>)
    requires DegreeOf(r) < 1
    ensures forall k: nat :: k >= 1 ==> Coef(Values(r), k) == 0
  {
    forall k: nat | k >= 1
      ensures Coef(Values(r), k) == 0
    {
      if k < |r| {
        assert IsZero(r[k]);
      }
    }
  }

  lemma {:induction false} EvConstant(r: int, x: int)
    ensures Ev([r], x) == r
  {
    assert EvN([r], 0, x) == 0 && Pow(x, 0) == 1;
  }

  /** A division by `[t0, 1]`, that is by `x - c` modulo `p`: the row sums
      of the division identity are the coefficients of `(x - c) * Q`. */
  lemma {:induction false} DivisionByLinearFactor(A: seq<int>, Q: seq<int>, R: seq<int>, t0: int, c: int, p: int)
    requires Decomposes(A, [t0, 1], Q, R, p) && t0 % p == (-c) % p
    ensures LinearIdentity(A, c, Q, R, p)
  {
    forall k: nat
      ensures Coef(A, k) % p == (Coef(LinMul(c, Q), k) + Coef(R, k)) % p
    {
      var a := RowSum(Q, [t0, 1], 0, |Q|, k);
      assert Coef(A, k) % p == (a + Coef(R, k)) % p;
      LinearFactorRowSum(Q, t0, c, p, k);
      CongruentChain(Coef(A, k), Coef(A, k), a, Coef(LinMul(c, Q), k), Coef(R, k), p);
    }
  }

  lemma {:induction false} CongruentChain(x: int, y: int, a: int, b: int, z: int, p: int)
    requires p > 0 && x % p == y % p && y % p == (a + z) % p && a % p == b % p
    ensures x % p == (b + z) % p
  {
    CongAdd(a, b, z, z, p);
  }

  /** If `P == (x - c) * Q + r0` modulo `p` and `P` vanishes at `c`, then `r0` vanishes. */
  lemma {:induction false} RootRemainder(P: seq<int>, Q: seq<int>, r0: int, c: int, p: int)
    requires p > 0 && Ev(P, c) == 0
    requires forall k: nat :: Coef(P, k) % p == (Coef(LinMul(c, Q), k) + 1 * Coef([r0], k)) % p
    ensures r0 % p == 0
  {
    EvLinearCongruent(P, LinMul(c, Q), [r0], 1, p, c);
    LinMulEv(c, Q, c);
    EvConstant(r0, c);
  }

  lemma {:induction false} DropRemainder(P: seq<int>, L: seq<int>, r0: int, p: int, k: nat)
    requires p > 0 && r0 % p == 0
    requires Coef(P, k) % p == (Coef(L, k) + 1 * Coef([r0], k)) % p
    ensures Coef(L, k) % p == Coef(P, k) % p
  {
    var z := Coef([r0], k);
    ModSmall(0, p);
    assert z % p == 0;
    assert 1 * z == z;
    CongAdd(Coef(L, k), Coef(L, k), z, 0, p);
  }

  /** Moving the identity `A == (x - c) * Q + R` over to a congruent `P`, with
      the constant remainder written as `[r0]`. */
  lemma {:induction false} ProductDivision(A: seq<int>, P: seq<int>, Q: seq<int>, R: seq<int>, c: int, p: int)
    requires Congruent(A, P, p) && LinearIdentity(A, c, Q, R, p) && ConstantTerm(R)
    ensures forall k: nat :: Coef(P, k) % p == (Coef(LinMul(c, Q), k) + 1 * Coef([Coef(R, 0)], k)) % p
  {
    forall k: nat
      ensures Coef(P, k) % p == (Coef(LinMul(c, Q), k) + 1 * Coef([Coef(R, 0)], k)) % p
    {
      assert Coef(R, k) == 1 * Coef([Coef(R, 0)], k);
    }
  }

  /** Dividing a polynomial congruent to `P == (x - c) * W` by `x - c`
      leaves, modulo `p`, the quotient `W` and no remainder. */
  lemma {:induction false} QuotientOfProduct(A: seq<int>, P: seq<int>, W: seq<int>, c: int, Q: seq<int>, R: seq<int>, p: int)
    requires Congruent(A, P, p) && P == LinMul(c, W) && Ev(P, c) == 0
    requires LinearIdentity(A, c, Q, R, p) && ConstantTerm(R)
    ensures Congruent(Q, W, p)
  {
    ProductDivision(A, P, Q, R, c, p);
    RootRemainder(P, Q, Coef(R, 0), c, p);
    CancelFactor(P, Q, W, Coef(R, 0), c, p);
  }

  lemma {:induction false} ProductVanishesAt(xs: seq<int>, i: nat)
    requires i < |xs|
    ensures Ev(LinProd(xs), xs[i]) == 0
  {
    EvLinProd(xs, xs[i]);
    ProdDiffRoot(xs, i);
  }

  /** From `P == (x - c) * Q + r0 == (x - c) * W` with `r0` vanishing, the
      factor `x - c` cancels: `Q == W` modulo `p`. */
  lemma {:induction false} CancelFactor(P: seq<int>, Q: seq<int>, W: seq<int>, r0: int, c: int, p: int)
    requires p > 0 && r0 % p == 0 && P == LinMul(c, W)
    requires forall k: nat :: Coef(P, k) % p == (Coef(LinMul(c, Q), k) + 1 * Coef([r0], k)) % p
    ensures Congruent(Q, W, p)
  {
    forall k: nat
      ensures Coef(LinMul(c, Q), k) % p == Coef(LinMul(c, W), k) % p
    {
      DropRemainder(P, LinMul(c, Q), r0, p, k);
    }
    LinMulCancel(c, Q, W, p);
  }

  /** A division identity by the divisor `[t0, 1]`, with `t0` congruent to
      `-c`, is a division identity by the linear factor `(x - c)`. */
  lemma {:induction false} LinearDivisionIdentity(A: seq<int>, q: seq<Element>, r: seq<Element>, t0: int, c: int, p: int)
    requires p > 0 && t0 % p == (-c) % p && DivIdentity(A, [t0, 1], q, r, p)
    ensures LinearIdentity(A, c, Values(q), Values(r), p)
  {
    IdentityDecomposes(A, [t0, 1], q, r, p);
    DivisionByLinearFactor(A, Values(q), Values(r), t0, c, p);
  }

  /** `q` and `r` are the quotient and remainder of the reduced, well-formed
      `mc` divided by the linear factor of `c`. */
  predicate LinearDivision(mc: seq<Element>, c: Element, q: seq<Element>, r: seq<Element>, p: int)
  {
    IsModulus(p) && WellFormed(mc, p) && AllReduced(mc) && c.modulus == p &&
    q == DivModCoeffs(mc, LinearFactor(c), p).0 && r == DivModCoeffs(mc, LinearFactor(c), p).1
  }

  /** `DivideBy` with `temp` as divisor: `M == (x - c) * q + r` modulo `p`. */
  lemma {:induction false} DivisionByTemp(mc: seq<Element>, c: Element, x: int, q: seq<Element>, r: seq<Element>, p: int)
    requires LinearDivision(mc, c, q, r, p) && c.value == x
    ensures LinearIdentity(Values(mc), x, Values(q), Values(r), p)
  {
    var t := LinearFactor(c);
    var t0 := t[0].value;
    assert Values(t) == [t0, 1];
    assert DivIdentity(Values(mc), [t0, 1], q, r, p) by {
      DivModCorrect(mc, t, p);
    }
    assert t0 % p == (-c.value) % p by {
      ModSmall(t0, p);
    }
    LinearDivisionIdentity(Values(mc), q, r, t0, c.value, p);
  }

  lemma {:induction false} DivisionByTempShape(mc: seq<Element>, c: Element, q: seq<Element>, r: seq<Element>, p: int)
    requires LinearDivision(mc, c, q, r, p)
    ensures (DegreeOf(mc) >= 1 ==> |q| <= DegreeOf(mc)) && ConstantTerm(Values(r))
  {
    var t := LinearFactor(c);
    DivModCorrect(mc, t, p);
    ConstantRemainder(r);
  }

  /** Dividing a polynomial congruent to `P == (x - c) * W` by the linear
      factor of `c` gives, modulo `p`, the quotient `W`. */
  lemma {:induction false} QuotientOfFactor(mc: seq<Element>, c: Element, q: seq<Element>, r: seq<Element>, P: seq<int>, W: seq<int>, p: int)
    requires LinearDivision(mc, c, q, r, p)
    requires Congruent(Values(mc), P, p) && P == LinMul(c.value, W) && Ev(P, c.value) == 0
    ensures Congruent(Values(q), W, p)
  {
    DivisionByTemp(mc, c, c.value, q, r, p);
    DivisionByTempShape(mc, c, q, r, p);
    QuotientOfProduct(Values(mc), P, W, c.value, Values(q), Values(r), p);
  }

  /** The quotient `m_i` of `M` by `(x - x_i)` is, modulo `p`, the product of
      the linear factors of all the other points, and has at most `|xs|`
      coefficients. */
  lemma {:induction false} BasisQuotient(mc: seq<Element>, xs: seq<int>, i: nat, c: Element, p: int)
    requires IsModulus(p) && WellFormed(mc, p) && AllReduced(mc) && |mc| <= |xs| + 1
    requires Congruent(Values(mc), LinProd(xs), p)
    requires i < |xs| && c.modulus == p && c.value == xs[i]
    ensures DegreeOf(mc) >= DegreeOf(LinearFactor(c))
    ensures |DivModCoeffs(mc, LinearFactor(c), p).0| <= |xs|
    ensures Congruent(Values(DivModCoeffs(mc, LinearFactor(c), p).0), LinProd(RemoveAt(xs, i)), p)
  {
    var t := LinearFactor(c);
    var q := DivModCoeffs(mc, t, p).0;
    var r := DivModCoeffs(mc, t, p).1;
    assert DegreeOf(mc) == |xs| by {
      TopCoefficient(Values(mc), xs, p);
      ProductDegree(mc, |xs|, p);
    }
    assert |q| <= |xs| by {
      DivisionByTempShape(mc, c, q, r, p);
    }
    assert Congruent(Values(q), LinProd(RemoveAt(xs, i)), p) by {
      ProductVanishesAt(xs, i);
      LinProdFactor(xs, i);
      QuotientOfFactor(mc, c, q, r, LinProd(xs), LinProd(RemoveAt(xs, i)), p);
    }
  }

  /** `M / (x - x_i)` is exact: the remainder `DivMod` computes alongside
      `m_i` is the zero polynomial. */
  lemma {:induction false} BasisRemainderZero(mc: seq<Element>, xs: seq<int>, i: nat, c: Element, p: int)
    requires IsModulus(p) && WellFormed(mc, p) && AllReduced(mc) && |mc| <= |xs| + 1
    requires Congruent(Values(mc), LinProd(xs), p)
    requires i < |xs| && c.modulus == p && c.value == xs[i]
    ensures DegreeOf(mc) >= DegreeOf(LinearFactor(c))
    ensures DegreeOf(DivModCoeffs(mc, LinearFactor(c), p).1) == -1
  {
    var t := LinearFactor(c);
    BasisQuotient(mc, xs, i, c, p);
    var q, r := DivModCoeffs(mc, t, p).0, DivModCoeffs(mc, t, p).1;
    ProductVanishesAt(xs, i);
    RemainderAtRoot(mc, c, q, r, LinProd(xs), p);
    DivModCorrect(mc, t, p);
    DivisionByTempShape(mc, c, q, r, p);
    ZeroConstant(r, p);
  }

  /** A reduced constant whose value vanishes modulo `p` is the zero polynomial. */
  lemma {:induction false} ZeroConstant(r: seq<Element>, p: int)
    requires WellFormed(r, p) && AllReduced(r) && ConstantTerm(Values(r)) && Coef(Values(r), 0) % p == 0
    ensures DegreeOf(r) == -1
  {
    forall k | 0 <= k < |r|
      ensures IsZero(r[k])
    {
      if k == 0 {
        ModSmall(r[0].value, p);
      } else {
        assert Coef(Values(r), k) == 0;
      }
    }
  }

  /** Dividing a polynomial congruent to `P` by the linear factor of a root
      `c` of `P` leaves a remainder that vanishes modulo `p`. */
  lemma {:induction false} RemainderAtRoot(mc: seq<Element>, c: Element, q: seq<Element>, r: seq<Element>, P: seq<int>, p: int)
    requires LinearDivision(mc, c, q, r, p)
    requires Congruent(Values(mc), P, p) && Ev(P, c.value) == 0
    ensures Coef(Values(r), 0) % p == 0
  {
    DivisionByTemp(mc, c, c.value, q, r, p);
    DivisionByTempShape(mc, c, q, r, p);
    RootDivision(Values(mc), P, Values(q), Values(r), c.value, p);
  }

  /** `A == (x - c) * Q + R` modulo `p`, coefficient by coefficient. */
  ghost predicate LinearIdentity(A: seq<int>, c: int, Q: seq<int>, R: seq<int>, p: int)
  {
    p > 0 && forall k: nat :: Coef(A, k) % p == (Coef(LinMul(c, Q), k) + Coef(R, k)) % p
  }

  /** Every coefficient above the constant one is zero. */
  ghost predicate ConstantTerm(R: seq<int>)
  {
    forall j: nat :: j >= 1 ==> Coef(R, j) == 0
  }

  /** The integer core of `RemainderAtRoot`. */
  lemma {:induction false} RootDivision(A: seq<int>, P: seq<int>, Q: seq<int>, R: seq<int>, c: int, p: int)
    requires Congruent(A, P, p) && Ev(P, c) == 0
    requires LinearIdentity(A, c, Q, R, p) && ConstantTerm(R)
    ensures Coef(R, 0) % p == 0
  {
    ProductDivision(A, P, Q, R, c, p);
    RootRemainder(P, Q, Coef(R, 0), c, p);
  }

  /** `m_i` vanishes modulo `p` at every other point, and at `x_i` its value is
      `prod_{j != i} (x_i - x_j)`. */
  lemma {:induction false} QuotientAt(q: seq<Element>, xs: seq<int>, i: nat, j: nat, p: int)
    requires p > 0 && i < |xs| && j < |xs|
    requires Congruent(Values(q), LinProd(RemoveAt(xs, i)), p)
    ensures Eval(q, xs[j]) % p == (if j == i then ProdDiff(RemoveAt(xs, i), xs[i]) % p else 0)
  {
    var W := RemoveAt(xs, i);
    QuotientEval(q, W, xs[j], p);
    if j != i {
      var k := if j < i then j else j - 1;
      assert W[k] == xs[j];
      ProdDiffRoot(W, k);
      ModSmall(0, p);
    }
  }

  /** A polynomial congruent to `prod (x - w_k)` takes that product's value. */
  lemma {:induction false} QuotientEval(q: seq<Element>, W: seq<int>, x: int, p: int)
    requires p > 0 && Congruent(Values(q), LinProd(W), p)
    ensures Eval(q, x) % p == ProdDiff(W, x) % p
  {
    EvCongruent(Values(q), LinProd(W), x, p);
    EvLinProd(W, x);
  }

  /** `item = factor * m_i` takes the value `y_i` at `x_i` and vanishes at every
      other point, modulo `p`. */
  lemma {:induction false} ItemAt(c: Element, q: seq<Element>, xs: seq<int>, i: nat, j: nat, y: int, p: int)
    requires IsModulus(p) && WellFormed(q, p) && c.modulus == p && i < |xs| && j < |xs|
    requires Congruent(Values(q), LinProd(RemoveAt(xs, i)), p)
    requires (c.value * (Eval(q, xs[i]) % p)) % p == y % p
    ensures Eval(ProductCoeffs([c], q, p), xs[j]) % p == (if j == i then y % p else 0)
  {
    ScaledEval(c, q, xs[j], p);
    if j != i {
      QuotientAt(q, xs, i, j, p);
      ModSmall(0, p);
      assert c.value * (Eval(q, xs[j]) % p) == 0;
    }
  }

  /** Multiplying by the constant polynomial `[c]` scales every value by `c`. */
  lemma {:induction false} ScaledEval(c: Element, q: seq<Element>, x: int, p: int)
    requires IsModulus(p) && WellFormed(q, p) && c.modulus == p
    ensures Eval(ProductCoeffs([c], q, p), x) % p == (c.value * (Eval(q, x) % p)) % p
  {
    var e := Eval(q, x);
    ProductEval([c], q, p, x);
    assert Values([c]) == [c.value];
    EvConstant(c.value, x);
    ModSmall(e % p, p);
    CongMul(c.value, c.value, e, e % p, p);
  }

  /** One turn of the second loop: after adding `item_i`, the sum agrees with
      every point up to `i` and vanishes at the others, modulo `p`. */
  lemma {:induction false} AccumulateStep(f: seq<Element>, item: seq<Element>, points: seq<XYPoint>, i: nat, p: int)
    requires WellFormed(f, p) && WellFormed(item, p) && MaxLen(f, item) > 0 && i < |points|
    requires PassesThroughFirst(f, points, i, p)
    requires forall j :: 0 <= j < |points| ==>
      Eval(item, points[j].x.value) % p == (if j == i then points[i].y.value % p else 0)
    ensures PassesThroughFirst(Shrunk(AddCoeffs(f, item, p)), points, i + 1, p)
  {
    forall j | 0 <= j < |points|
      ensures Eval(Shrunk(AddCoeffs(f, item, p)), points[j].x.value) % p ==
              (if j < i + 1 then points[j].y.value % p else 0)
    {
      var x := points[j].x.value;
      var a, b := Eval(f, x), Eval(item, x);
      AddEval(f, item, p, x);
      ModSmall(a % p, p);
      ModSmall(b % p, p);
      CongAdd(a, a % p, b, b % p, p);
      var target := if j < i + 1 then points[j].y.value % p else 0;
      assert a % p + b % p == target;
      ModSmall(target, p);
    }
  }

  /** `item` has at most as many coefficients as `m_i`, at least one. */
  lemma {:induction false} ItemShape(c: Element, q: seq<Element>, p: int, n: nat)
    requires IsModulus(p) && WellFormed(q, p) && c.modulus == p && 1 <= n && |q| <= n
    ensures |ProductCoeffs([c], q, p)| <= n
  {
    assert DegreeOf([c]) <= 0;
  }

  /** The running sum keeps the library's canonical shape and its length bound. */
  lemma {:induction false} SumShape(a: seq<Element>, b: seq<Element>, p: int, n: nat)
    requires WellFormed(a, p) && WellFormed(b, p) && 0 < |b| <= n && |a| <= n
    ensures var s := Shrunk(AddCoeffs(a, b, p));
            WellFormed(s, p) && AllReduced(s) && IsShrunk(s) && |s| <= n
  {
    var r := AddCoeffs(a, b, p);
    var s := Shrunk(r);
    assert forall k :: 0 <= k < |s| ==> s[k] == r[k];
  }

  // ---------------------------------------------------------------------------
  // The algorithm

  /** The first loop of `LagrangeInterpolation`: `M`, the product of the
      linear factors `(x - x_i)` of all the points, which is monic of degree
      `|points|`. */
  method VanishingPolynomial(points: seq<XYPoint>) returns (M: Polynomial)
    requires |points| > 0 && SameModuli(points) && IsModulus(points[0].x.modulus)
    ensures fresh(M) && M.Valid() && M.modulus == points[0].x.modulus && AllReduced(M.coefficients)
    ensures |M.coefficients| <= |points| + 1
    ensures Congruent(Values(M.coefficients), LinProd(XValues(points)), points[0].x.modulus)
    ensures DegreeOf(M.coefficients) == |points| && M.coefficients[|points|].value == 1
  {
    var modulus := points[0].x.modulus;
    ghost var xs := XValues(points);
    var one := Element(1, modulus);
    M := new Polynomial(modulus, [one]);
    assert LinProd(xs[..0]) == [1];
    var i := 0;
    while i < |points|
      modifies M
      invariant 0 <= i <= |points|
      invariant M.Valid() && M.modulus == modulus && AllReduced(M.coefficients)
      invariant |M.coefficients| <= i + 1
      invariant Congruent(Values(M.coefficients), LinProd(xs[..i]), modulus)
    {
      var temp := new Polynomial(modulus, [Field.Negative(points[i].x), one]);
      assert temp.coefficients == LinearFactor(points[i].x);
      ProductStep(M.coefficients, xs[..i], points[i].x, modulus);
      M.Multiply(M, temp);
      assert xs[..i + 1] == xs[..i] + [points[i].x.value];
      i := i + 1;
    }
    assert xs[..|points|] == xs;
    MonicOfDegree(M.coefficients, xs, modulus);
  }

  /** A reduced polynomial with at most `|xs| + 1` coefficients that is
      congruent to `LinProd(xs)` is monic of degree `|xs|`. */
  lemma {:induction false} MonicOfDegree(mc: seq<Element>, xs: seq<int>, p: int)
    requires IsModulus(p) && WellFormed(mc, p) && AllReduced(mc) && |mc| <= |xs| + 1
    requires Congruent(Values(mc), LinProd(xs), p)
    ensures DegreeOf(mc) == |xs| && mc[|xs|].value == 1
  {
    TopCoefficient(Values(mc), xs, p);
    ProductDegree(mc, |xs|, p);
    assert Coef(Values(mc), |xs|) == mc[|xs|].value;
    ModSmall(mc[|xs|].value, p);
  }

  /** The quotient `m_i = M / (x - x_i)` of the second loop of
      `LagrangeInterpolation` and its value `m_i(x_i)`, which is invertible
      because the points are solvable. */
  method BasisQuotientAt(points: seq<XYPoint>, M: Polynomial, i: nat) returns (m: Polynomial, mx: Element)
    requires |points| > 0 && SameModuli(points) && Solvable(points) && i < |points|
    requires M.Valid() && M.modulus == points[0].x.modulus && AllReduced(M.coefficients)
    requires |M.coefficients| <= |points| + 1
    requires Congruent(Values(M.coefficients), LinProd(XValues(points)), points[0].x.modulus)
    ensures fresh(m) && m.Valid() && m.modulus == points[0].x.modulus && |m.coefficients| <= |points|
    ensures Congruent(Values(m.coefficients), LinProd(RemoveAt(XValues(points), i)), points[0].x.modulus)
    ensures mx.modulus == points[0].x.modulus && Reduced(mx) && Invertible(mx)
    ensures mx.value == Eval(m.coefficients, points[i].x.value) % points[0].x.modulus
  {
    var modulus := points[0].x.modulus;
    ghost var xs := XValues(points);
    var one := Element(1, modulus);
    var temp := new Polynomial(modulus, [Field.Negative(points[i].x), one]);
    assert temp.coefficients == LinearFactor(points[i].x);
    BasisQuotient(M.coefficients, xs, i, points[i].x, modulus);

    // A zero-valued receiver, as `new(polynomial.Polynomial)` gives.
    m := new Polynomial(0, []);
    m.DivideBy(M, temp);
    mx := m.EvaluateAt(points[i].x);
    QuotientAt(m.coefficients, xs, i, i, modulus);
    ghost var d := ProdDiff(RemoveAt(xs, i), xs[i]);
    assert mx.value % modulus == d % modulus by {
      ModSmall(mx.value, modulus);
    }
    assert Invertible(Element(d, modulus));
    InvertibleCongruent(Element(d, modulus), mx);
  }

  /** One turn of the second loop of `LagrangeInterpolation`: the basis term
      `item = [y_i / m_i(x_i)] * m_i`, which takes the value `y_i` at `x_i`
      and vanishes at every other point. */
  method BasisTerm(points: seq<XYPoint>, M: Polynomial, i: nat) returns (item: Polynomial)
    requires |points| > 0 && SameModuli(points) && Solvable(points) && i < |points|
    requires M.Valid() && M.modulus == points[0].x.modulus && AllReduced(M.coefficients)
    requires |M.coefficients| <= |points| + 1
    requires Congruent(Values(M.coefficients), LinProd(XValues(points)), points[0].x.modulus)
    ensures fresh(item) && item.Valid() && item.modulus == points[0].x.modulus
    ensures 0 < |item.coefficients| <= |points|
    ensures forall j :: 0 <= j < |points| ==>
      Eval(item.coefficients, points[j].x.value) % points[0].x.modulus ==
      (if j == i then points[i].y.value % points[0].x.modulus else 0)
  {
    var modulus := points[0].x.modulus;
    var m, mx := BasisQuotientAt(points, M, i);
    var factor := new Polynomial(modulus, [Field.DivideBy(points[i].y, mx)]);
    item := new Polynomial(0, []);
    ItemShape(factor.coefficients[0], m.coefficients, modulus, |points|);
    item.Multiply(factor, m);
    BasisValues(factor.coefficients[0], m.coefficients, points, i, modulus);
  }

  /** `ItemAt` at every point. */
  lemma {:induction false} BasisValues(c: Element, q: seq<Element>, points: seq<XYPoint>, i: nat, p: int)
    requires IsModulus(p) && WellFormed(q, p) && c.modulus == p && i < |points|
    requires Congruent(Values(q), LinProd(RemoveAt(XValues(points), i)), p)
    requires (c.value * (Eval(q, points[i].x.value) % p)) % p == points[i].y.value % p
    ensures forall j :: 0 <= j < |points| ==>
      Eval(ProductCoeffs([c], q, p), points[j].x.value) % p == (if j == i then points[i].y.value % p else 0)
  {
    var xs := XValues(points);
    forall j | 0 <= j < |points|
      ensures Eval(ProductCoeffs([c], q, p), xs[j]) % p == (if j == i then points[i].y.value % p else 0)
    {
      ItemAt(c, q, xs, i, j, points[i].y.value, p);
    }
  }

  /** `LagrangeInterpolation`: the polynomial of the fewest coefficients through
      the points, or an error when there are no points or their moduli differ. */
  method LagrangeInterpolation(points: seq<XYPoint>) returns (result: Outcome)
    requires |points| > 0 && SameModuli(points) ==> Solvable(points)
    ensures |points| == 0 ==> result == Failed(NoPoints)
    ensures |points| > 0 && !SameModuli(points) ==> result == Failed(ModulusMismatch)
    ensures |points| > 0 && SameModuli(points) ==>
      result.Interpolated? && fresh(result.poly) && result.poly.modulus == points[0].x.modulus &&
      Interpolates(result.poly.coefficients, points, points[0].x.modulus)
  {
    var n := |points|;
    if n == 0 {
      return Failed(NoPoints);
    }
    var modulus := points[0].x.modulus;
    var k := 0;
    while k < n
      invariant 0 <= k <= n
      invariant forall j :: 0 <= j < k ==> points[j].x.modulus == modulus && points[j].y.modulus == modulus
    {
      if points[k].x.modulus != modulus || points[k].y.modulus != modulus {
        return Failed(ModulusMismatch);
      }
      k := k + 1;
    }
    var M := VanishingPolynomial(points);
    var f := SumBasisTerms(points, M);
    return Interpolated(f);
  }

  /** The second loop of `LagrangeInterpolation`: starting from the zero
      polynomial, add the basis term of every point in turn. */
  method SumBasisTerms(points: seq<XYPoint>, M: Polynomial) returns (f: Polynomial)
    requires |points| > 0 && SameModuli(points) && Solvable(points)
    requires M.Valid() && M.modulus == points[0].x.modulus && AllReduced(M.coefficients)
    requires |M.coefficients| <= |points| + 1
    requires Congruent(Values(M.coefficients), LinProd(XValues(points)), points[0].x.modulus)
    ensures fresh(f) && f.modulus == points[0].x.modulus
    ensures Interpolates(f.coefficients, points, points[0].x.modulus)
  {
    var n := |points|;
    var modulus := points[0].x.modulus;
    f := Polynomials.NewZero(modulus);
    ModSmall(0, modulus);
    assert forall j :: 0 <= j < n ==> Eval(f.coefficients, points[j].x.value) == 0;

    var i := 0;
    while i < n
      modifies f
      invariant 0 <= i <= n
      invariant f.Valid() && f.modulus == modulus && AllReduced(f.coefficients) && |f.coefficients| <= n
      invariant i > 0 ==> IsShrunk(f.coefficients)
      invariant PassesThroughFirst(f.coefficients, points, i, modulus)
    {
      AddBasisTerm(points, M, f, i);
      i := i + 1;
    }
  }

  /** One turn of the second loop: `f.Add(f, item)` with the basis term of
      point `i`, after which `f` also passes through that point. */
  method AddBasisTerm(points: seq<XYPoint>, M: Polynomial, f: Polynomial, i: nat)
    requires |points| > 0 && SameModuli(points) && Solvable(points) && i < |points|
    requires M.Valid() && M.modulus == points[0].x.modulus && AllReduced(M.coefficients)
    requires |M.coefficients| <= |points| + 1
    requires Congruent(Values(M.coefficients), LinProd(XValues(points)), points[0].x.modulus)
    requires f.Valid() && f.modulus == points[0].x.modulus && AllReduced(f.coefficients)
    requires |f.coefficients| <= |points|
    requires PassesThroughFirst(f.coefficients, points, i, points[0].x.modulus)
    modifies f
    ensures f.Valid() && f.modulus == points[0].x.modulus && AllReduced(f.coefficients)
    ensures |f.coefficients| <= |points| && IsShrunk(f.coefficients)
    ensures PassesThroughFirst(f.coefficients, points, i + 1, points[0].x.modulus)
  {
    var modulus := points[0].x.modulus;
    var item := BasisTerm(points, M, i);
    ghost var sum := f.coefficients;
    AccumulateStep(sum, item.coefficients, points, i, modulus);
    SumShape(sum, item.coefficients, modulus, |points|);
    f.Add(f, item);
    assert f.coefficients == Shrunk(AddCoeffs(sum, item.coefficients, modulus));
  }

  // ---------------------------------------------------------------------------
  // Which inputs can be interpolated, and what the result is

  /** A product of differences `x - y_k` is non-zero modulo a prime when no
      `y_k` is congruent to `x`. */
  lemma {:induction false} ProdDiffNonzero(ys: seq<int>, x: int, p: int)
    requires IsPrime(p)
    requires forall k :: 0 <= k < |ys| ==> ys[k] % p != x % p
    ensures ProdDiff(ys, x) % p != 0
  {
    if |ys| == 0 {
      ModSmall(1, p);
    } else {
      var init, last := ys[..|ys| - 1], ys[|ys| - 1];
      ProdDiffNonzero(init, x, p);
      if (x - last) % p == 0 {
        ModSubCongruent(x, last, p);
        assert false;
      }
      PrimeProductNonzero(ProdDiff(init, x), x - last, p);
    }
  }

  /** A product of differences `x - y_k` vanishes modulo `p` when some `y_k`
      is congruent to `x`. */
  lemma {:induction false} ProdDiffVanishes(ys: seq<int>, x: int, j: nat, p: int)
    requires p > 0 && j < |ys| && ys[j] % p == x % p
    ensures ProdDiff(ys, x) % p == 0
  {
    var init, last := ys[..|ys| - 1], ys[|ys| - 1];
    var a, b := ProdDiff(init, x), x - last;
    assert ProdDiff(ys, x) == a * b;
    if j < |ys| - 1 {
      assert a % p == 0 by {
        assert init[j] == ys[j];
        ProdDiffVanishes(init, x, j, p);
      }
      ZeroFactor(a, b, p);
    } else {
      assert b % p == 0 by {
        CongSub(x, x, last, x, p);
      }
      ZeroFactor(b, a, p);
      assert b * a == a * b;
    }
  }

  /** A multiple of a value divisible by `p` is divisible by `p`. */
  lemma {:induction false} ZeroFactor(a: int, b: int, p: int)
    requires p > 0 && a % p == 0
    ensures (a * b) % p == 0
  {
    CongMul(a, 0, b, b, p);
  }

  /** Modulo a prime, the library runs to the end exactly when the
      x-coordinates are pairwise distinct: a repeated x-coordinate makes some
      `m_i(x_i)` zero, which `DivideBy` cannot invert. */
  lemma {:induction false} SolvableIffDistinct(points: seq<XYPoint>)
    requires |points| > 0 && IsPrime(points[0].x.modulus)
    ensures Solvable(points) <==> DistinctMod(XValues(points), points[0].x.modulus)
  {
    var p, xs := points[0].x.modulus, XValues(points);
    if DistinctMod(xs, p) {
      forall i | 0 <= i < |points|
        ensures Invertible(Element(ProdDiff(RemoveAt(xs, i), points[i].x.value), p))
      {
        DistinctInvertibleAt(xs, i, p);
      }
      assert Solvable(points);
    } else {
      var i, j :| 0 <= i < j < |xs| && xs[i] % p == xs[j] % p;
      RepeatedNotInvertible(xs, i, j, p);
      assert xs[i] == points[i].x.value;
      assert !Solvable(points);
    }
  }

  /** With distinct x-coordinates, `m_i(x_i)` is invertible modulo a prime. */
  lemma {:induction false} DistinctInvertibleAt(xs: seq<int>, i: nat, p: int)
    requires IsPrime(p) && DistinctMod(xs, p) && i < |xs|
    ensures Invertible(Element(ProdDiff(RemoveAt(xs, i), xs[i]), p))
  {
    var ys := RemoveAt(xs, i);
    forall k | 0 <= k < |ys|
      ensures ys[k] % p != xs[i] % p
    {
      if k < i {
        assert ys[k] == xs[k];
      } else {
        assert ys[k] == xs[k + 1];
      }
    }
    ProdDiffNonzero(ys, xs[i], p);
    PrimeInvertible(Element(ProdDiff(ys, xs[i]), p));
  }

  /** When `x_j` repeats `x_i` modulo `p`, `m_i(x_i)` is zero and has no inverse. */
  lemma {:induction false} RepeatedNotInvertible(xs: seq<int>, i: nat, j: nat, p: int)
    requires p > 1 && i < j < |xs| && xs[i] % p == xs[j] % p
    ensures !Invertible(Element(ProdDiff(RemoveAt(xs, i), xs[i]), p))
  {
    var ys := RemoveAt(xs, i);
    assert ys[j - 1] == xs[j];
    ProdDiffVanishes(ys, xs[i], j - 1, p);
    var v := ProdDiff(ys, xs[i]);
    forall r | 0 <= r < p
      ensures !IsInverse(Element(v, p), r)
    {
      ModMulLeft(v, r, p);
    }
  }

  lemma {:induction false} DifferenceEv(F: seq<int>, G: seq<int>, n: nat, x: int)
    requires |F| <= n && |G| <= n
    ensures Ev(Difference(F, G, n), x) == Ev(F, x) - Ev(G, x)
  {
    EvNLinear(Difference(F, G, n), F, G, -1, n, x);
    EvNFull(F, n, x);
    EvNFull(G, n, x);
  }

  /** Two reduced values congruent modulo `p` are equal. */
  lemma {:induction false} ReducedCongruent(u: int, v: int, p: int)
    requires 0 <= u < p && 0 <= v < p && (u - v) % p == 0
    ensures u == v
  {
    ModSubCongruent(u, v, p);
    ModSmall(u, p);
    ModSmall(v, p);
  }

  /** Modulo a prime, two polynomials in canonical form with at most one
      coefficient per point that agree with the same points are equal. */
  lemma {:induction false} InterpolantUnique(f: seq<Element>, g: seq<Element>, points: seq<XYPoint>, p: int)
    requires IsPrime(p) && DistinctMod(XValues(points), p)
    requires Interpolates(f, points, p) && Interpolates(g, points, p)
    ensures f == g
  {
    var n, xs := |points|, XValues(points);
    var F, G := Values(f), Values(g);
    var d := Difference(F, G, n);
    forall j | 0 <= j < n
      ensures Ev(d, xs[j]) % p == 0
    {
      var x, y := xs[j], points[j].y.value;
      DifferenceEv(F, G, n, x);
      assert Ev(F, x) % p == y % p && Ev(G, x) % p == y % p;
      CongSub(Ev(F, x), y, Ev(G, x), y, p);
    }
    RootsVanish(d, xs, p);
    forall k: nat
      ensures Coef(F, k) == Coef(G, k)
    {
      if k < n {
        assert Coef(d, k) % p == 0;
        assert Coef(d, k) == Coef(F, k) - Coef(G, k);
        ReducedCongruent(Coef(F, k), Coef(G, k), p);
      }
    }
    ShrunkUnique(f, g, p);
  }

  /** What the library's test checks: interpolating `n` points taken from a
      polynomial `g` with at most `n` coefficients, modulo a prime, gives `g`
      back, and `g.Equals(result)` holds. */
  lemma {:induction false} InterpolationRecovers(g: seq<Element>, points: seq<XYPoint>, f: seq<Element>, p: int)
    requires IsPrime(p) && DistinctMod(XValues(points), p)
    requires WellFormed(g, p) && AllReduced(g) && IsShrunk(g) && |g| <= |points|
    requires forall j :: 0 <= j < |points| ==> points[j].y.value == Eval(g, points[j].x.value) % p
    requires Interpolates(f, points, p)
    ensures f == g && EqualsAsWritten(g, f)
  {
    forall j | 0 <= j < |points|
      ensures Eval(g, points[j].x.value) % p == points[j].y.value % p
    {
      ModSmall(points[j].y.value, p);
    }
    InterpolantUnique(f, g, points, p);
    assert Shrunk(g) == g;
  }

  /** A single point `(x0, y0)` interpolates to the constant polynomial `[y0]`
      (reduced modulo `p`). */
  lemma {:induction false} SinglePointConstant(f: seq<Element>, point: XYPoint, p: int)
    requires Interpolates(f, [point], p)
    ensures f == [Element(point.y.value % p, p)]
  {
    assert |f| == 1;
    assert Eval(f, point.x.value) % p == point.y.value % p by {
      assert [point][0] == point;
    }
    assert Values(f) == [f[0].value];
    EvConstant(f[0].value, point.x.value);
    ModSmall(f[0].value, p);
  }
}
