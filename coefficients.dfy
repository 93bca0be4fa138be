/** The polynomial operations of polynomial/polynomial.go as functions of the
    coefficient sequence (index `i` holds the coefficient of `x^i`, each a field
    element). The class in module Polynomials computes these with the library's
    loops and is proved to agree with them; the properties the library promises
    are proved here, about the functions. */
module Coefficients {
  import opened ModArith
  import opened Field
  import opened PolyMath

  /** The integer values of a coefficient sequence. */
  function Values(s: seq<Element>): (v: seq<int>)
    ensures |v| == |s| && forall k :: 0 <= k < |s| ==> v[k] == s[k].value
  {
    seq(|s|, k requires 0 <= k < |s| => s[k].value)
  }

  /** The shape every polynomial of the library has: a modulus greater than one,
      carried by every coefficient (a coefficient under another modulus makes
      the field operations panic). */
  predicate WellFormed(s: seq<Element>, m: int)
  {
    IsModulus(m) && forall k :: 0 <= k < |s| ==> s[k].modulus == m
  }

  predicate AllReduced(s: seq<Element>)
  {
    forall k :: 0 <= k < |s| ==> Reduced(s[k])
  }

  /** `Degree`: the highest index whose stored value is non-zero, or -1 when
      there is none (the zero polynomial, empty or all zeros). */
  function DegreeOf(s: seq<Element>): (d: int)
    ensures -1 <= d < |s|
    ensures d >= 0 ==> !IsZero(s[d])
    ensures forall k :: d < k < |s| ==> IsZero(s[k])
  {
    DegreeBelow(s, |s|)
  }

  /** The scan of `Degree` from index `n - 1` downwards. */
  function DegreeBelow(s: seq<Element>, n: nat): (d: int)
    requires n <= |s|
    ensures -1 <= d < n
    ensures d >= 0 ==> !IsZero(s[d])
    ensures forall k :: d < k < n ==> IsZero(s[k])
  {
    if n == 0 then -1
    else if !IsZero(s[n - 1]) then n - 1
    else DegreeBelow(s, n - 1)
  }

  /** The degree depends only on the values, read with zero padding. */
  lemma {:induction false} DegreeOfValues(s: seq<Element>, t: seq<Element>)
    requires forall k: nat :: Coef(Values(s), k) == Coef(Values(t), k)
    ensures DegreeOf(s) == DegreeOf(t)
  {
    var ds, dt := DegreeOf(s), DegreeOf(t);
    var hi := if ds < dt then dt else ds;
    if hi >= 0 {
      assert Coef(Values(s), hi) == Coef(Values(t), hi);
    }
  }

  /** `CoefficientAt`: the stored coefficient, or the zero of the modulus past the end. */
  function CoefficientAt(s: seq<Element>, m: int, i: int): (e: Element)
    requires 0 <= i
    ensures e.value == Coef(Values(s), i)
    ensures WellFormed(s, m) ==> e.modulus == m
    ensures AllReduced(s) && IsModulus(m) ==> Reduced(e)
  {
    if i < |s| then s[i] else NewZero(m)
  }

  /** `LeadingTermCoefficient`: the coefficient at the degree, or zero for the zero polynomial. */
  function LeadingCoefficient(s: seq<Element>, m: int): (e: Element)
    ensures DegreeOf(s) >= 0 <==> !IsZero(e)
    ensures WellFormed(s, m) ==> e.modulus == m
  {
    var d := DegreeOf(s);
    if d == -1 then NewZero(m) else s[d]
  }

  /** A canonical coefficient sequence: at least one coefficient, and no zero
      at the top unless it is the only one. */
  predicate IsShrunk(s: seq<Element>)
  {
    |s| == 1 || (|s| > 1 && !IsZero(s[|s| - 1]))
  }

  /** `Shrink`: keep `max(Degree + 1, 1)` coefficients. The library slices the
      coefficient slice to that length, which panics on an empty slice. */
  function Shrunk(s: seq<Element>): (r: seq<Element>)
    requires |s| > 0
    ensures 1 <= |r| <= |s| && r == s[..|r|]
    ensures IsShrunk(r) && DegreeOf(r) == DegreeOf(s)
    ensures forall k :: |r| <= k < |s| ==> IsZero(s[k])
  {
    var d := DegreeOf(s);
    var r := s[..if d + 1 < 1 then 1 else d + 1];
    assert d >= 0 ==> r[d] == s[d];
    r
  }

  lemma {:induction false} ShrunkIdempotent(s: seq<Element>)
    requires |s| > 0
    ensures Shrunk(Shrunk(s)) == Shrunk(s)
  {
  }

  /** Shrinking keeps every coefficient, read with zero padding. */
  lemma {:induction false} ShrunkCoef(s: seq<Element>)
    requires |s| > 0
    ensures forall k: nat :: Coef(Values(Shrunk(s)), k) == Coef(Values(s), k)
  {
  }

  lemma {:induction false} ShrunkEval(s: seq<Element>, x: int)
    requires |s| > 0
    ensures Ev(Values(Shrunk(s)), x) == Ev(Values(s), x)
  {
    var r := Shrunk(s);
    EvNFull(Values(r), |s|, x);
    EvNExt(Values(r), Values(s), |s|, x);
  }

  /** Two canonical sequences with the same padded values and moduli are equal. */
  lemma {:induction false} ShrunkUnique(s: seq<Element>, t: seq<Element>, m: int)
    requires IsShrunk(s) && IsShrunk(t) && WellFormed(s, m) && WellFormed(t, m)
    requires forall k: nat :: Coef(Values(s), k) == Coef(Values(t), k)
    ensures s == t
  {
    DegreeOfValues(s, t);
    assert |s| == |t|;
    forall k | 0 <= k < |s|
      ensures s[k] == t[k]
    {
      assert Coef(Values(s), k) == Coef(Values(t), k);
    }
  }

  // ---------------------------------------------------------------------------
  // Coefficient-wise operations

  function MaxLen(a: seq<Element>, b: seq<Element>): nat
  {
    if |a| < |b| then |b| else |a|
  }

  /** The coefficient loop of `Add`, before shrinking: field sums of the zero-padded operands. */
  function AddCoeffs(a: seq<Element>, b: seq<Element>, m: int): (r: seq<Element>)
    requires WellFormed(a, m) && WellFormed(b, m)
    ensures |r| == MaxLen(a, b) && WellFormed(r, m) && AllReduced(r)
    ensures forall k: nat :: Coef(Values(r), k) == (Coef(Values(a), k) + Coef(Values(b), k)) % m
  {
    var r := seq(MaxLen(a, b), k requires 0 <= k => Field.Add(CoefficientAt(a, m, k), CoefficientAt(b, m, k)));
    PaddedSum(a, b, r, m);
    r
  }

  /** Past the longer operand both coefficients are zero, and so is their sum. */
  lemma {:induction false} PaddedSum(a: seq<Element>, b: seq<Element>, r: seq<Element>, m: int)
    requires m > 0 && |r| == MaxLen(a, b)
    requires forall k :: 0 <= k < |r| ==> r[k].value == (Coef(Values(a), k) + Coef(Values(b), k)) % m
    ensures forall k: nat :: Coef(Values(r), k) == (Coef(Values(a), k) + Coef(Values(b), k)) % m
  {
    forall k: nat
      ensures Coef(Values(r), k) == (Coef(Values(a), k) + Coef(Values(b), k)) % m
    {
      if k >= |r| {
        assert Coef(Values(a), k) == 0 && Coef(Values(b), k) == 0;
      }
    }
  }

  /** The coefficient loop of `Subtract`, before shrinking. */
  function SubCoeffs(a: seq<Element>, b: seq<Element>, m: int): (r: seq<Element>)
    requires WellFormed(a, m) && WellFormed(b, m)
    ensures |r| == MaxLen(a, b) && WellFormed(r, m) && AllReduced(r)
    ensures forall k: nat :: Coef(Values(r), k) == (Coef(Values(a), k) - Coef(Values(b), k)) % m
  {
    var r := seq(MaxLen(a, b), k requires 0 <= k => Field.Subtract(CoefficientAt(a, m, k), CoefficientAt(b, m, k)));
    PaddedDifference(a, b, r, m);
    r
  }

  /** Past the longer operand both coefficients are zero, and so is their difference. */
  lemma {:induction false} PaddedDifference(a: seq<Element>, b: seq<Element>, r: seq<Element>, m: int)
    requires m > 0 && |r| == MaxLen(a, b)
    requires forall k :: 0 <= k < |r| ==> r[k].value == (Coef(Values(a), k) - Coef(Values(b), k)) % m
    ensures forall k: nat :: Coef(Values(r), k) == (Coef(Values(a), k) - Coef(Values(b), k)) % m
  {
    forall k: nat
      ensures Coef(Values(r), k) == (Coef(Values(a), k) - Coef(Values(b), k)) % m
    {
      if k >= |r| {
        assert Coef(Values(a), k) == 0 && Coef(Values(b), k) == 0;
      }
    }
  }

  /** The coefficient loop of `Negative` (no shrinking). */
  function NegCoeffs(s: seq<Element>): (r: seq<Element>)
    requires forall k :: 0 <= k < |s| ==> IsModulus(s[k].modulus)
    ensures |r| == |s| && AllReduced(r)
    ensures forall k :: 0 <= k < |s| ==> r[k].modulus == s[k].modulus
    ensures forall k :: 0 <= k < |s| ==> r[k].value == (-s[k].value) % s[k].modulus
  {
    seq(|s|, k requires 0 <= k < |s| && IsModulus(s[k].modulus) => Field.Negative(s[k]))
  }

  /** The value of a polynomial at `x`, before reduction. */
  function Eval(s: seq<Element>, x: int): int
  {
    Ev(Values(s), x)
  }

  /** Addition is evaluated pointwise. */
  lemma {:induction false} AddEval(a: seq<Element>, b: seq<Element>, m: int, x: int)
    requires WellFormed(a, m) && WellFormed(b, m) && MaxLen(a, b) > 0
    ensures Eval(Shrunk(AddCoeffs(a, b, m)), x) % m == (Eval(a, x) + Eval(b, x)) % m
  {
    var r := AddCoeffs(a, b, m);
    var R, A, B := Values(r), Values(a), Values(b);
    ShrunkEval(r, x);
    forall k: nat
      ensures Coef(R, k) % m == (Coef(A, k) + 1 * Coef(B, k)) % m
    {
      var v := Coef(R, k);
      assert v == (Coef(A, k) + Coef(B, k)) % m;
      ModSmall(v, m);
    }
    EvLinearCongruent(R, A, B, 1, m, x);
    assert Ev(R, x) % m == (Ev(A, x) + Ev(B, x)) % m;
  }

  lemma {:induction false} SubEval(a: seq<Element>, b: seq<Element>, m: int, x: int)
    requires WellFormed(a, m) && WellFormed(b, m) && MaxLen(a, b) > 0
    ensures Eval(Shrunk(SubCoeffs(a, b, m)), x) % m == (Eval(a, x) - Eval(b, x)) % m
  {
    var r := SubCoeffs(a, b, m);
    var R, A, B := Values(r), Values(a), Values(b);
    ShrunkEval(r, x);
    forall k: nat
      ensures Coef(R, k) % m == (Coef(A, k) + (-1) * Coef(B, k)) % m
    {
      var v := Coef(R, k);
      assert v == (Coef(A, k) - Coef(B, k)) % m;
      ModSmall(v, m);
    }
    EvLinearCongruent(R, A, B, -1, m, x);
    assert Ev(R, x) % m == (Ev(A, x) - Ev(B, x)) % m;
  }

  lemma {:induction false} NegEval(s: seq<Element>, m: int, x: int)
    requires WellFormed(s, m)
    ensures Eval(NegCoeffs(s), x) % m == (-Eval(s, x)) % m
  {
    var r := NegCoeffs(s);
    forall k: nat
      ensures Coef(Values(r), k) % m == (Coef([], k) + (-1) * Coef(Values(s), k)) % m
    {
      if k < |s| {
        ModSmall(Coef(Values(r), k), m);
      }
    }
    EvLinearCongruent(Values(r), [], Values(s), -1, m, x);
  }

  /** Adding a polynomial and its negation gives zero coefficients everywhere. */
  lemma {:induction false} AddNegCancels(s: seq<Element>, m: int)
    requires WellFormed(s, m) && |s| > 0
    ensures DegreeOf(AddCoeffs(s, NegCoeffs(s), m)) == -1
    ensures Shrunk(AddCoeffs(s, NegCoeffs(s), m)) == [NewZero(m)]
  {
    var r := AddCoeffs(s, NegCoeffs(s), m);
    var n := NegCoeffs(s);
    forall k | 0 <= k < |r|
      ensures r[k].value == 0
    {
      var v := s[k].value;
      assert Coef(Values(n), k) == (-v) % m;
      assert r[k].value == (v + (-v) % m) % m;
      ModAddRight(v, -v, m);
    }
  }

  // ---------------------------------------------------------------------------
  // Multiplication

  /** The accumulator of `Multiply`'s nested loop for two non-zero operands:
      index `k` holds the sum over `i + j == k` of `a_i * b_j`, reduced. */
  function Convolution(a: seq<Element>, b: seq<Element>, m: int): (r: seq<Element>)
    requires DegreeOf(a) >= 0 && DegreeOf(b) >= 0 && IsModulus(m)
    ensures |r| == DegreeOf(a) + DegreeOf(b) + 1 && WellFormed(r, m) && AllReduced(r)
  {
    var da, db := DegreeOf(a), DegreeOf(b);
    seq(da + db + 1, k => Element(RowSum(Values(a), Values(b), 0, da + 1, k) % m, m))
  }

  /** `Multiply`: a single zero coefficient when either operand is zero,
      otherwise the shrunk convolution. */
  function ProductCoeffs(a: seq<Element>, b: seq<Element>, m: int): (r: seq<Element>)
    requires WellFormed(a, m) && WellFormed(b, m)
    ensures WellFormed(r, m) && AllReduced(r) && IsShrunk(r)
    ensures |r| <= (if DegreeOf(a) + DegreeOf(b) + 1 < 1 then 1 else DegreeOf(a) + DegreeOf(b) + 1)
  {
    if DegreeOf(a) == -1 || DegreeOf(b) == -1 then [NewZero(m)]
    else Shrunk(Convolution(a, b, m))
  }

  /** The convolution formula: every coefficient of the product is the reduced
      sum of `a_i * b_j` over `i + j == k`, the zero short-cut included. */
  lemma {:induction false} ProductCoefficients(a: seq<Element>, b: seq<Element>, m: int)
    requires WellFormed(a, m) && WellFormed(b, m)
    ensures forall k: nat :: Coef(Values(ProductCoeffs(a, b, m)), k) == RowSum(Values(a), Values(b), 0, |a|, k) % m
  {
    var A, B := Values(a), Values(b);
    var da, db := DegreeOf(a), DegreeOf(b);
    var r := ProductCoeffs(a, b, m);
    forall k: nat
      ensures Coef(Values(r), k) == RowSum(A, B, 0, |a|, k) % m
    {
      if da == -1 || db == -1 {
        forall i | 0 <= i < |a|
          ensures Coef(A, i) == 0 || Coef(B, k - i) == 0
        {
        }
        RowSumVanishes(A, B, 0, |a|, k);
      } else {
        var c := Convolution(a, b, m);
        ShrunkCoef(c);
        RowSumZeroTail(A, B, 0, da + 1, |a|, k);
        if k >= da + db + 1 {
          forall i | 0 <= i < da + 1
            ensures Coef(A, i) == 0 || Coef(B, k - i) == 0
          {
          }
          RowSumVanishes(A, B, 0, da + 1, k);
        }
      }
    }
  }

  /** Evaluation is multiplicative: `(a * b)(x) == a(x) * b(x)` modulo `m`. */
  lemma {:induction false} ProductEval(a: seq<Element>, b: seq<Element>, m: int, x: int)
    requires WellFormed(a, m) && WellFormed(b, m)
    ensures Eval(ProductCoeffs(a, b, m), x) % m == (Eval(a, x) * Eval(b, x)) % m
  {
    var r := ProductCoeffs(a, b, m);
    ProductDecomposes(a, b, m);
    EvProductSum(Values(r), Values(a), Values(b), [], m, x);
    assert Ev([], x) == 0;
  }

  // ---------------------------------------------------------------------------
  // Long division

  function Zeros(n: nat, m: int): (z: seq<Element>)
    ensures |z| == n && forall k :: 0 <= k < n ==> z[k] == NewZero(m)
  {
    seq(n, _ => NewZero(m))
  }

  /** The inner loop of `DivMod`: subtract `c * x^i * d` from the remainder,
      one field subtraction per coefficient of the divisor up to its degree. */
  function SubtractRow(r: seq<Element>, c: Element, d: seq<Element>, i: nat, dm: nat, m: int): (r': seq<Element>)
    requires WellFormed(r, m) && WellFormed(d, m) && c.modulus == m && i + dm < |r|
    ensures |r'| == |r| && WellFormed(r', m)
    ensures AllReduced(r) ==> AllReduced(r')
  {
    seq(|r|, k requires 0 <= k < |r| =>
      if i <= k <= i + dm then Field.Subtract(r[k], Field.Multiply(c, CoefficientAt(d, m, k - i))) else r[k])
  }

  /** `SubtractRow` changes exactly the cells `i .. i + dm`, each by `c` times
      the divisor's coefficient, modulo `m`. */
  lemma {:induction false} SubtractRowValues(r: seq<Element>, c: Element, d: seq<Element>, i: nat, dm: nat, m: int)
    requires WellFormed(r, m) && WellFormed(d, m) && c.modulus == m && i + dm < |r|
    ensures var r' := SubtractRow(r, c, d, i, dm, m);
            (forall k :: 0 <= k < |r| && !(i <= k <= i + dm) ==> r'[k] == r[k]) &&
            (forall k :: i <= k <= i + dm ==> r'[k].value == (r[k].value - (c.value * Coef(Values(d), k - i)) % m) % m)
  {
  }

  /** One turn of the outer loop of `DivMod` at quotient index `i`: the
      quotient coefficient is the remainder's coefficient at `i + dm` times the
      inverse `iv` of the divisor's leading coefficient, and unless it is zero
      its multiple of the divisor is subtracted. */
  function DivStep(q: seq<Element>, r: seq<Element>, d: seq<Element>, iv: Element, i: nat, dm: nat, m: int)
    : (qr: (seq<Element>, seq<Element>))
    requires WellFormed(q, m) && WellFormed(r, m) && WellFormed(d, m) && iv.modulus == m
    requires i < |q| && i + dm < |r|
    ensures |qr.0| == |q| && |qr.1| == |r| && WellFormed(qr.0, m) && WellFormed(qr.1, m)
    ensures AllReduced(q) ==> AllReduced(qr.0)
    ensures AllReduced(r) ==> AllReduced(qr.1)
  {
    var c := Field.Multiply(r[i + dm], iv);
    (q[i := c], if IsZero(c) then r else SubtractRow(r, c, d, i, dm, m))
  }

  /** The outer loop of `DivMod` from quotient index `i` down to 0. */
  function LongDivide(q: seq<Element>, r: seq<Element>, d: seq<Element>, iv: Element, i: int, dm: nat, m: int)
    : (qr: (seq<Element>, seq<Element>))
    requires WellFormed(q, m) && WellFormed(r, m) && WellFormed(d, m) && iv.modulus == m
    requires -1 <= i < |q| && i + dm < |r|
    ensures |qr.0| == |q| && |qr.1| == |r| && WellFormed(qr.0, m) && WellFormed(qr.1, m)
    ensures AllReduced(q) ==> AllReduced(qr.0)
    ensures AllReduced(r) ==> AllReduced(qr.1)
    decreases i + 1
  {
    if i < 0 then (q, r)
    else
      var s := DivStep(q, r, d, iv, i, dm, m);
      LongDivide(s.0, s.1, d, iv, i - 1, dm, m)
  }

  /** `DivMod`: quotient and remainder. When the dividend's degree is below the
      divisor's, the quotient is the empty zero polynomial and the remainder the
      dividend as stored; otherwise both results of the long division are shrunk.
      The library panics on a zero divisor, and on a leading coefficient without
      inverse once the loop runs. */
  function DivModCoeffs(a: seq<Element>, d: seq<Element>, m: int): (qr: (seq<Element>, seq<Element>))
    requires WellFormed(a, m) && WellFormed(d, m) && DegreeOf(d) >= 0
    requires DegreeOf(a) >= DegreeOf(d) ==> Invertible(LeadingCoefficient(d, m))
    ensures WellFormed(qr.0, m) && WellFormed(qr.1, m) && AllReduced(qr.0)
  {
    var n, dm := DegreeOf(a), DegreeOf(d);
    if n - dm <= -1 then ([], a)
    else
      var iv := Inverse(LeadingCoefficient(d, m));
      var qr := LongDivide(Zeros(n - dm + 1, m), a, d, iv, n - dm, dm, m);
      (Shrunk(qr.0), Shrunk(qr.1))
  }

  /** `A == Q * D + R` coefficient-wise modulo `m`. */
  ghost predicate DivIdentity(A: seq<int>, D: seq<int>, q: seq<Element>, r: seq<Element>, m: int)
  {
    m > 0 && forall k: nat :: IdentityAt(A, D, q, r, m, k)
  }

  /** The division identity at the coefficient of `x^k`. */
  ghost predicate IdentityAt(A: seq<int>, D: seq<int>, q: seq<Element>, r: seq<Element>, m: int, k: nat)
    requires m > 0
  {
    Coef(A, k) % m == (RowSum(Values(q), D, 0, |q|, k) + Coef(Values(r), k)) % m
  }

  /** The remainder vanishes modulo `m` above index `top`. */
  predicate VanishesAbove(r: seq<Element>, top: int, m: int)
    requires m > 0
  {
    forall k :: 0 <= k < |r| && top < k ==> r[k].value % m == 0
  }

  /** Quotient entries up to index `i` are not computed yet. */
  predicate PendingUpTo(q: seq<Element>, i: int)
  {
    forall t :: 0 <= t <= i && t < |q| ==> q[t].value == 0
  }

  /** What holds before the turn at index `i` of the long division. */
  ghost predicate DivInvariant(A: seq<int>, D: seq<int>, q: seq<Element>, r: seq<Element>, i: int, dm: nat, m: int)
  {
    DivIdentity(A, D, q, r, m) && PendingUpTo(q, i) && VanishesAbove(r, i + dm, m)
  }

  /** Multiplying by the inverse of the leading coefficient and then by the
      leading coefficient gives back the original value, modulo `m`. */
  lemma {:induction false} CancelLead(rv: int, iv: int, lead: int, m: int)
    requires m > 0 && (lead * iv) % m == 1
    ensures ((rv * iv) % m * lead) % m == rv % m
  {
    ModMulLeft(rv * iv, lead, m);
    assert rv * iv * lead == rv * (lead * iv);
    ModMulRight(rv, lead * iv, m);
  }

  lemma {:induction false} SubtractStep(rs: int, rk: int, rk': int, cd: int, rs': int, m: int)
    requires m > 0 && rk' % m == (rk - cd) % m && rs' == rs + cd
    ensures (rs' + rk') % m == (rs + rk) % m
  {
    CongAdd(rs', rs', rk', rk - cd, m);
  }

  /** One coefficient of the division identity survives a subtracting turn. */
  lemma {:induction false} SubtractRowIdentity(A: seq<int>, q: seq<Element>, r: seq<Element>, d: seq<Element>, c: Element, i: nat, dm: nat, m: int, k: nat)
    requires WellFormed(q, m) && WellFormed(r, m) && WellFormed(d, m) && c.modulus == m
    requires dm == DegreeOf(d) && i < |q| && i + dm < |r| && q[i].value == 0
    requires IdentityAt(A, Values(d), q, r, m, k)
    ensures IdentityAt(A, Values(d), q[i := c], SubtractRow(r, c, d, i, dm, m), m, k)
  {
    var D := Values(d);
    var cd := c.value * Coef(D, k - i);
    var rs, rk := RowSum(Values(q), D, 0, |q|, k), Coef(Values(r), k);
    var rs' := RowSum(Values(q[i := c]), D, 0, |q|, k);
    var rk' := Coef(Values(SubtractRow(r, c, d, i, dm, m)), k);
    RowSumAfterUpdate(q, c, D, i, k);
    SubtractRowCoef(r, c, d, i, dm, m, k);
    SubtractStep(rs, rk, rk', cd, rs', m);
    IdentityAtIntro(A, D, q[i := c], SubtractRow(r, c, d, i, dm, m), m, k, rs', rk');
  }

  /** Setting the pending quotient entry `i` to `c` adds row `i` to the convolution. */
  lemma {:induction false} RowSumAfterUpdate(q: seq<Element>, c: Element, D: seq<int>, i: nat, k: int)
    requires i < |q| && q[i].value == 0
    ensures RowSum(Values(q[i := c]), D, 0, |q|, k) == RowSum(Values(q), D, 0, |q|, k) + c.value * Coef(D, k - i)
  {
    RowSumUpdate(Values(q), Values(q[i := c]), D, 0, |q|, i, k);
  }

  lemma {:induction false} IdentityAtIntro(A: seq<int>, D: seq<int>, q: seq<Element>, r: seq<Element>, m: int, k: nat, rs: int, rk: int)
    requires m > 0 && rs == RowSum(Values(q), D, 0, |q|, k) && rk == Coef(Values(r), k)
    requires Coef(A, k) % m == (rs + rk) % m
    ensures IdentityAt(A, D, q, r, m, k)
  {
  }

  /** The remainder's coefficient at `k` loses `c` times the divisor's coefficient at `k - i`. */
  lemma {:induction false} SubtractRowCoef(r: seq<Element>, c: Element, d: seq<Element>, i: nat, dm: nat, m: int, k: nat)
    requires WellFormed(r, m) && WellFormed(d, m) && c.modulus == m
    requires dm == DegreeOf(d) && i + dm < |r|
    ensures Coef(Values(SubtractRow(r, c, d, i, dm, m)), k) % m
         == (Coef(Values(r), k) - c.value * Coef(Values(d), k - i)) % m
  {
    if i <= k <= i + dm {
      SubtractRowInside(r, c, d, i, dm, m, k);
    } else {
      SubtractRowOutside(r, c, d, i, dm, m, k);
    }
  }

  lemma {:induction false} SubtractRowInside(r: seq<Element>, c: Element, d: seq<Element>, i: nat, dm: nat, m: int, k: nat)
    requires WellFormed(r, m) && WellFormed(d, m) && c.modulus == m
    requires dm == DegreeOf(d) && i <= k <= i + dm < |r|
    ensures SubtractRow(r, c, d, i, dm, m)[k].value % m
         == (r[k].value - c.value * Coef(Values(d), k - i)) % m
  {
    var cd := c.value * Coef(Values(d), k - i);
    var v := SubtractRow(r, c, d, i, dm, m)[k].value;
    assert v == (r[k].value - cd % m) % m by {
      SubtractRowValues(r, c, d, i, dm, m);
    }
    ResidueOfDifference(r[k].value, cd, v, m);
  }

  lemma {:induction false} SubtractRowOutside(r: seq<Element>, c: Element, d: seq<Element>, i: nat, dm: nat, m: int, k: nat)
    requires WellFormed(r, m) && WellFormed(d, m) && c.modulus == m
    requires dm == DegreeOf(d) && i + dm < |r| && !(i <= k <= i + dm)
    ensures Coef(Values(SubtractRow(r, c, d, i, dm, m)), k) == Coef(Values(r), k)
    ensures Coef(Values(d), k - i) == 0
  {
    assert k < |r| ==> SubtractRow(r, c, d, i, dm, m)[k] == r[k] by {
      SubtractRowValues(r, c, d, i, dm, m);
    }
  }

  /** A cell set to `(a - b mod m) mod m` is congruent to `a - b`. */
  lemma {:induction false} ResidueOfDifference(a: int, b: int, a': int, m: int)
    requires m > 0 && a' == (a - b % m) % m
    ensures a' % m == (a - b) % m
  {
    ModSubRight(a, b, m);
    ModSmall(a', m);
  }

  lemma {:induction false} SubtractRowPreserves(A: seq<int>, q: seq<Element>, r: seq<Element>, d: seq<Element>, c: Element, i: nat, dm: nat, m: int)
    requires WellFormed(q, m) && WellFormed(r, m) && WellFormed(d, m) && c.modulus == m
    requires dm == DegreeOf(d) && i < |q| && i + dm < |r| && q[i].value == 0
    requires DivIdentity(A, Values(d), q, r, m)
    ensures DivIdentity(A, Values(d), q[i := c], SubtractRow(r, c, d, i, dm, m), m)
  {
    var q', r' := q[i := c], SubtractRow(r, c, d, i, dm, m);
    forall k: nat
      ensures IdentityAt(A, Values(d), q', r', m, k)
    {
      SubtractRowIdentity(A, q, r, d, c, i, dm, m, k);
    }
  }

  lemma {:induction false} DivStepIdentity(A: seq<int>, q: seq<Element>, r: seq<Element>, d: seq<Element>, iv: Element, i: nat, dm: nat, m: int)
    requires WellFormed(q, m) && WellFormed(r, m) && WellFormed(d, m) && iv.modulus == m
    requires dm == DegreeOf(d) && i < |q| && i + dm < |r| && q[i].value == 0
    requires DivIdentity(A, Values(d), q, r, m)
    ensures DivIdentity(A, Values(d), DivStep(q, r, d, iv, i, dm, m).0, DivStep(q, r, d, iv, i, dm, m).1, m)
  {
    var c := Field.Multiply(r[i + dm], iv);
    var st := DivStep(q, r, d, iv, i, dm, m);
    if IsZero(c) {
      assert q[i := c] == q;
      assert st == (q, r);
    } else {
      assert st == (q[i := c], SubtractRow(r, c, d, i, dm, m));
      SubtractRowPreserves(A, q, r, d, c, i, dm, m);
    }
  }

  /** The turn's subtraction clears the remainder's coefficient at `i + dm`. */
  lemma {:induction false} TopCancels(rv: int, cv: int, lead: int, iv: int, m: int)
    requires m > 0 && cv == (rv * iv) % m && (lead * iv) % m == 1
    ensures (rv - (cv * lead) % m) % m == 0
    ensures cv == 0 ==> rv % m == 0
  {
    CancelLead(rv, iv, lead, m);
    ModSubRight(rv, rv, m);
  }

  lemma {:induction false} SubtractRowTop(r: seq<Element>, c: Element, d: seq<Element>, i: nat, dm: nat, m: int)
    requires WellFormed(r, m) && WellFormed(d, m) && c.modulus == m && i + dm < |r| && dm < |d|
    requires (r[i + dm].value - (c.value * d[dm].value) % m) % m == 0
    requires VanishesAbove(r, i + dm, m)
    ensures VanishesAbove(SubtractRow(r, c, d, i, dm, m), i - 1 + dm, m)
  {
    var r' := SubtractRow(r, c, d, i, dm, m);
    SubtractRowValues(r, c, d, i, dm, m);
    assert Coef(Values(d), dm) == d[dm].value;
    assert r'[i + dm].value % m == 0;
  }

  lemma {:induction false} DivStepTop(q: seq<Element>, r: seq<Element>, d: seq<Element>, iv: Element, i: nat, dm: nat, m: int)
    requires WellFormed(q, m) && WellFormed(r, m) && WellFormed(d, m) && iv.modulus == m
    requires dm == DegreeOf(d) && i < |q| && i + dm < |r|
    requires (d[dm].value * iv.value) % m == 1
    requires VanishesAbove(r, i + dm, m)
    ensures VanishesAbove(DivStep(q, r, d, iv, i, dm, m).1, i - 1 + dm, m)
  {
    var c := Field.Multiply(r[i + dm], iv);
    assert DivStep(q, r, d, iv, i, dm, m).1 == if IsZero(c) then r else SubtractRow(r, c, d, i, dm, m);
    TopCancels(r[i + dm].value, c.value, d[dm].value, iv.value, m);
    if IsZero(c) {
      VanishesAboveStep(r, i + dm, m);
    } else {
      SubtractRowTop(r, c, d, i, dm, m);
    }
  }

  /** A remainder vanishing above `top` and at `top` vanishes above `top - 1`. */
  lemma {:induction false} VanishesAboveStep(r: seq<Element>, top: nat, m: int)
    requires m > 0 && top < |r| && VanishesAbove(r, top, m) && r[top].value % m == 0
    ensures VanishesAbove(r, top - 1, m)
  {
  }

  lemma {:induction false} DivStepPreserves(A: seq<int>, q: seq<Element>, r: seq<Element>, d: seq<Element>, iv: Element, i: nat, dm: nat, m: int)
    requires WellFormed(q, m) && WellFormed(r, m) && WellFormed(d, m) && iv.modulus == m
    requires dm == DegreeOf(d) && i < |q| && i + dm < |r|
    requires (d[dm].value * iv.value) % m == 1
    requires DivInvariant(A, Values(d), q, r, i, dm, m)
    ensures DivInvariant(A, Values(d), DivStep(q, r, d, iv, i, dm, m).0, DivStep(q, r, d, iv, i, dm, m).1, i - 1, dm, m)
  {
    DivStepIdentity(A, q, r, d, iv, i, dm, m);
    DivStepTop(q, r, d, iv, i, dm, m);
  }

  lemma {:induction false} LongDivideCorrect(A: seq<int>, q: seq<Element>, r: seq<Element>, d: seq<Element>, iv: Element,
                                             i: int, dm: nat, m: int)
    requires WellFormed(q, m) && WellFormed(r, m) && WellFormed(d, m) && iv.modulus == m
    requires dm == DegreeOf(d) && -1 <= i < |q| && i + dm < |r|
    requires (d[dm].value * iv.value) % m == 1
    requires DivInvariant(A, Values(d), q, r, i, dm, m)
    ensures DivInvariant(A, Values(d), LongDivide(q, r, d, iv, i, dm, m).0, LongDivide(q, r, d, iv, i, dm, m).1, -1, dm, m)
    decreases i + 1
  {
    if i >= 0 {
      var s := DivStep(q, r, d, iv, i, dm, m);
      DivStepPreserves(A, q, r, d, iv, i, dm, m);
      LongDivideCorrect(A, s.0, s.1, d, iv, i - 1, dm, m);
    }
  }

  /** Dropping zero rows from the top of the quotient does not change the product. */
  lemma {:induction false} ShrunkRowSum(q: seq<Element>, D: seq<int>, k: int)
    requires |q| > 0
    ensures RowSum(Values(Shrunk(q)), D, 0, |Shrunk(q)|, k) == RowSum(Values(q), D, 0, |q|, k)
  {
    var sq := Shrunk(q);
    RowSumExt(Values(sq), Values(q), D, 0, |sq|, k);
    RowSumZeroTail(Values(q), D, 0, |sq|, |q|, k);
  }

  /** Before the first turn: a zero quotient and the dividend as remainder. */
  lemma {:induction false} InitialInvariant(a: seq<Element>, D: seq<int>, q: int, dm: nat, m: int)
    requires WellFormed(a, m) && q >= 0 && DegreeOf(a) == q + dm
    ensures DivInvariant(Values(a), D, Zeros(q + 1, m), a, q, dm, m)
  {
    var q0 := Zeros(q + 1, m);
    forall k: nat
      ensures Coef(Values(a), k) % m == (RowSum(Values(q0), D, 0, |q0|, k) + Coef(Values(a), k)) % m
    {
      RowSumVanishes(Values(q0), D, 0, |q0|, k);
    }
    forall k | 0 <= k < |a| && q + dm < k
      ensures a[k].value % m == 0
    {
      assert IsZero(a[k]);
    }
  }

  /** The long division itself, before shrinking. */
  lemma {:induction false} LongDivisionResult(a: seq<Element>, d: seq<Element>, m: int)
    requires WellFormed(a, m) && WellFormed(d, m) && 0 <= DegreeOf(d) <= DegreeOf(a)
    requires Invertible(LeadingCoefficient(d, m))
    ensures var fin := LongDivide(Zeros(DegreeOf(a) - DegreeOf(d) + 1, m), a, d, Inverse(LeadingCoefficient(d, m)),
                                  DegreeOf(a) - DegreeOf(d), DegreeOf(d), m);
            DivInvariant(Values(a), Values(d), fin.0, fin.1, -1, DegreeOf(d), m)
  {
    var n, dm := DegreeOf(a), DegreeOf(d);
    var iv := Inverse(LeadingCoefficient(d, m));
    LeadInverse(d, m);
    InitialInvariant(a, Values(d), n - dm, dm, m);
    LongDivideCorrect(Values(a), Zeros(n - dm + 1, m), a, d, iv, n - dm, dm, m);
  }

  /** The inverse of the leading coefficient, as the long division uses it. */
  lemma {:induction false} LeadInverse(d: seq<Element>, m: int)
    requires WellFormed(d, m) && DegreeOf(d) >= 0 && Invertible(LeadingCoefficient(d, m))
    ensures Inverse(LeadingCoefficient(d, m)).modulus == m
    ensures (d[DegreeOf(d)].value * Inverse(LeadingCoefficient(d, m)).value) % m == 1
  {
    assert LeadingCoefficient(d, m) == d[DegreeOf(d)];
  }

  /** Shrinking quotient and remainder keeps the division identity. */
  lemma {:induction false} ShrunkDivIdentity(A: seq<int>, D: seq<int>, q: seq<Element>, r: seq<Element>, m: int)
    requires |q| > 0 && |r| > 0 && DivIdentity(A, D, q, r, m)
    ensures DivIdentity(A, D, Shrunk(q), Shrunk(r), m)
  {
    forall k: nat
      ensures IdentityAt(A, D, Shrunk(q), Shrunk(r), m, k)
    {
      assert IdentityAt(A, D, q, r, m, k);
      ShrunkRowSum(q, D, k);
      ShrunkCoef(r);
    }
  }

  /** What `DivMod` promises of a quotient `Q` and remainder `R` of `a` by `d`. */
  ghost predicate IsDivision(a: seq<Element>, d: seq<Element>, Q: seq<Element>, R: seq<Element>, m: int)
    requires m > 0
  {
    DivIdentity(Values(a), Values(d), Q, R, m) &&
    VanishesAbove(R, DegreeOf(d) - 1, m) &&
    (AllReduced(a) ==> AllReduced(R) && DegreeOf(R) < DegreeOf(d)) &&
    |Q| <= (if DegreeOf(a) < DegreeOf(d) then 0 else DegreeOf(a) - DegreeOf(d) + 1)
  }

  lemma {:induction false} ShortDivision(a: seq<Element>, d: seq<Element>, m: int)
    requires WellFormed(a, m) && WellFormed(d, m) && 0 <= DegreeOf(d) && DegreeOf(a) < DegreeOf(d)
    ensures IsDivision(a, d, [], a, m)
  {
    forall k: nat
      ensures Coef(Values(a), k) % m == (RowSum(Values([]), Values(d), 0, 0, k) + Coef(Values(a), k)) % m
    {
    }
    forall k | 0 <= k < |a| && DegreeOf(d) - 1 < k
      ensures a[k].value % m == 0
    {
      assert IsZero(a[k]);
    }
  }

  lemma {:induction false} LongDivision(a: seq<Element>, d: seq<Element>, m: int)
    requires WellFormed(a, m) && WellFormed(d, m) && 0 <= DegreeOf(d) <= DegreeOf(a)
    requires Invertible(LeadingCoefficient(d, m))
    ensures IsDivision(a, d, DivModCoeffs(a, d, m).0, DivModCoeffs(a, d, m).1, m)
  {
    var n, dm := DegreeOf(a), DegreeOf(d);
    var iv := Inverse(LeadingCoefficient(d, m));
    var fin := LongDivide(Zeros(n - dm + 1, m), a, d, iv, n - dm, dm, m);
    LongDivisionResult(a, d, m);
    assert DivModCoeffs(a, d, m) == (Shrunk(fin.0), Shrunk(fin.1));
    ShrunkDivIdentity(Values(a), Values(d), fin.0, fin.1, m);
    if AllReduced(a) {
      forall k | dm <= k < |fin.1|
        ensures IsZero(fin.1[k])
      {
        ModSmall(fin.1[k].value, m);
      }
    }
  }

  /** The division identity and the bounds of `DivMod`: the dividend is
      quotient times divisor plus remainder, coefficient-wise modulo `m`; the
      remainder vanishes modulo `m` from the divisor's degree up (so its degree
      is below the divisor's when the dividend is reduced); the quotient has at
      most `deg a - deg d + 1` coefficients. */
  lemma {:induction false} DivModCorrect(a: seq<Element>, d: seq<Element>, m: int)
    requires WellFormed(a, m) && WellFormed(d, m) && DegreeOf(d) >= 0
    requires DegreeOf(a) >= DegreeOf(d) ==> Invertible(LeadingCoefficient(d, m))
    ensures IsDivision(a, d, DivModCoeffs(a, d, m).0, DivModCoeffs(a, d, m).1, m)
  {
    if DegreeOf(a) < DegreeOf(d) {
      ShortDivision(a, d, m);
    } else {
      LongDivision(a, d, m);
    }
  }

  /** The division identity at every point: `a(x) == Q(x) * d(x) + R(x)` modulo `m`. */
  lemma {:induction false} DivModEval(a: seq<Element>, d: seq<Element>, m: int, x: int)
    requires WellFormed(a, m) && WellFormed(d, m) && DegreeOf(d) >= 0
    requires DegreeOf(a) >= DegreeOf(d) ==> Invertible(LeadingCoefficient(d, m))
    ensures var (Q, R) := DivModCoeffs(a, d, m);
            Eval(a, x) % m == (Eval(Q, x) * Eval(d, x) + Eval(R, x)) % m
  {
    var qr := DivModCoeffs(a, d, m);
    DivModDecomposes(a, d, m);
    EvProductSum(Values(a), Values(qr.0), Values(d), Values(qr.1), m, x);
  }

  /** Dividing a product by one of its factors gives back the other factor
      and a zero remainder: `DivMod(a * b, b) == (a, 0)`, with `a` read with
      zero padding (the quotient of a zero product is the empty sequence). */
  lemma {:induction false} DivModOfProduct(a: seq<Element>, b: seq<Element>, m: int)
    requires WellFormed(a, m) && WellFormed(b, m) && AllReduced(a)
    requires DegreeOf(b) >= 0 && Invertible(LeadingCoefficient(b, m))
    ensures var qr := DivModCoeffs(ProductCoeffs(a, b, m), b, m);
            (forall k: nat :: Coef(Values(qr.0), k) == Coef(Values(a), k)) && DegreeOf(qr.1) == -1
  {
    var P := ProductCoeffs(a, b, m);
    var Q, R := DivModCoeffs(P, b, m).0, DivModCoeffs(P, b, m).1;
    var dm := DegreeOf(b);
    var inv := Inverse(LeadingCoefficient(b, m)).value;
    DivModDecomposes(P, b, m);
    ProductDecomposes(a, b, m);
    assert VanishesFrom([], dm, m) by {
      ModSmall(0, m);
    }
    assert (Coef(Values(b), dm) * inv) % m == 1;
    DivisionUnique(Values(P), Values(b), dm, inv, Values(Q), Values(R), Values(a), [], m);
    ReducedCongruentSequences(Q, a, m);
    ReducedCongruentSequences(R, [], m);
    assert forall k | 0 <= k < |R| :: IsZero(R[k]) by {
      forall k | 0 <= k < |R|
        ensures IsZero(R[k])
      {
        assert Coef(Values(R), k) == Coef(Values([]), k);
      }
    }
  }

  /** The quotient and remainder of `DivMod` decompose the dividend, and the
      remainder vanishes modulo `m` from the divisor's degree up. */
  lemma {:induction false} DivModDecomposes(a: seq<Element>, d: seq<Element>, m: int)
    requires WellFormed(a, m) && WellFormed(d, m) && DegreeOf(d) >= 0
    requires DegreeOf(a) >= DegreeOf(d) ==> Invertible(LeadingCoefficient(d, m))
    ensures var qr := DivModCoeffs(a, d, m);
            Decomposes(Values(a), Values(d), Values(qr.0), Values(qr.1), m) &&
            VanishesFrom(Values(qr.1), DegreeOf(d), m)
  {
    var qr := DivModCoeffs(a, d, m);
    DivModCorrect(a, d, m);
    IdentityDecomposes(Values(a), Values(d), qr.0, qr.1, m);
    RemainderVanishesFrom(qr.1, DegreeOf(d), m);
  }

  /** The division identity is a decomposition of the integer sequences. */
  lemma {:induction false} IdentityDecomposes(A: seq<int>, D: seq<int>, q: seq<Element>, r: seq<Element>, m: int)
    requires DivIdentity(A, D, q, r, m)
    ensures Decomposes(A, D, Values(q), Values(r), m)
  {
    forall k: nat
      ensures Coef(A, k) % m == (RowSum(Values(q), D, 0, |Values(q)|, k) + Coef(Values(r), k)) % m
    {
      assert IdentityAt(A, D, q, r, m, k);
    }
  }

  /** A remainder vanishing above `dm - 1` vanishes from `dm` on, zero padding included. */
  lemma {:induction false} RemainderVanishesFrom(r: seq<Element>, dm: nat, m: int)
    requires m > 0 && VanishesAbove(r, dm - 1, m)
    ensures VanishesFrom(Values(r), dm, m)
  {
    forall k: nat | k >= dm
      ensures Coef(Values(r), k) % m == 0
    {
      if k >= |r| {
        ModSmall(0, m);
      }
    }
  }

  /** The product is a decomposition with the other factor as quotient and no remainder. */
  lemma {:induction false} ProductDecomposes(a: seq<Element>, b: seq<Element>, m: int)
    requires WellFormed(a, m) && WellFormed(b, m)
    ensures Decomposes(Values(ProductCoeffs(a, b, m)), Values(b), Values(a), [], m)
  {
    var P := ProductCoeffs(a, b, m);
    ProductCoefficients(a, b, m);
    forall k: nat
      ensures Coef(Values(P), k) % m == (RowSum(Values(a), Values(b), 0, |a|, k) + Coef([], k)) % m
    {
      ModSmall(Coef(Values(P), k), m);
    }
  }

  /** Reduced sequences congruent coefficient by coefficient are equal coefficient by coefficient. */
  lemma {:induction false} ReducedCongruentSequences(s: seq<Element>, t: seq<Element>, m: int)
    requires IsModulus(m) && AllReduced(s) && AllReduced(t) && WellFormed(s, m) && WellFormed(t, m)
    requires forall k: nat :: Coef(Values(s), k) % m == Coef(Values(t), k) % m
    ensures forall k: nat :: Coef(Values(s), k) == Coef(Values(t), k)
  {
    forall k: nat
      ensures Coef(Values(s), k) == Coef(Values(t), k)
    {
      ReducedEqual(Coef(Values(s), k), Coef(Values(t), k), m);
    }
  }

  /** Two values in `[0, m)` with the same remainder are equal. */
  lemma {:induction false} ReducedEqual(u: int, v: int, m: int)
    requires 0 <= u < m && 0 <= v < m && u % m == v % m
    ensures u == v
  {
    ModSmall(u, m);
    ModSmall(v, m);
  }

  // ---------------------------------------------------------------------------
  // Equality

  /** Same length and pairwise `Field.Equals`. */
  predicate ElementwiseEqual(s: seq<Element>, t: seq<Element>)
  {
    |s| == |t| && forall i :: 0 <= i < |s| ==> Field.Equals(s[i], t[i])
  }

  /** `Equals` as written: the receiver is shrunk, the clone of the other
      polynomial is shrunk and then ignored, and the shrunk receiver is
      compared with the other polynomial as stored. */
  function EqualsAsWritten(p: seq<Element>, other: seq<Element>): (b: bool)
    requires |p| > 0 && |other| > 0
    ensures b ==> IsShrunk(other)
  {
    ElementwiseEqual(Shrunk(p), other)
  }

  /** `Equals` as evidently intended: both sides shrunk before comparing. */
  function EqualsShrinkingBoth(p: seq<Element>, other: seq<Element>): bool
    requires |p| > 0 && |other| > 0
  {
    ElementwiseEqual(Shrunk(p), Shrunk(other))
  }

  /** The intended comparison is equality of polynomials: the same coefficient
      at every power, trailing zeros ignored. */
  lemma {:induction false} EqualsShrinkingBothIsPolynomialEquality(p: seq<Element>, other: seq<Element>, m: int)
    requires WellFormed(p, m) && WellFormed(other, m) && |p| > 0 && |other| > 0
    ensures EqualsShrinkingBoth(p, other) <==> forall k: nat :: Coef(Values(p), k) == Coef(Values(other), k)
  {
    var sp, so := Shrunk(p), Shrunk(other);
    ShrunkCoef(p);
    ShrunkCoef(other);
    if forall k: nat :: Coef(Values(p), k) == Coef(Values(other), k) {
      ShrunkUnique(sp, so, m);
    }
    if EqualsShrinkingBoth(p, other) {
      forall k: nat
        ensures Coef(Values(p), k) == Coef(Values(other), k)
      {
        assert Coef(Values(sp), k) == Coef(Values(so), k);
      }
    }
  }

  /** As written, `Equals` never reports equal polynomials as different when
      the other polynomial is already shrunk, and never reports different
      polynomials as equal. */
  lemma {:induction false} EqualsAsWrittenAgreesWhenShrunk(p: seq<Element>, other: seq<Element>)
    requires |p| > 0 && |other| > 0
    ensures EqualsAsWritten(p, other) ==> EqualsShrinkingBoth(p, other)
    ensures IsShrunk(other) ==> (EqualsAsWritten(p, other) <==> EqualsShrinkingBoth(p, other))
  {
    if IsShrunk(other) || EqualsAsWritten(p, other) {
      assert Shrunk(other) == other;
    }
  }

  /** The discrepancy: `[1]` and `[1, 0]` modulo 7 are the same polynomial,
      but `Equals` as written reports them different. */
  lemma {:induction false} EqualsAsWrittenMissesTrailingZero()
    ensures !EqualsAsWritten([Element(1, 7)], [Element(1, 7), Element(0, 7)])
    ensures EqualsShrinkingBoth([Element(1, 7)], [Element(1, 7), Element(0, 7)])
  {
    assert Shrunk([Element(1, 7), Element(0, 7)]) == [Element(1, 7)];
  }

  // ---------------------------------------------------------------------------
  // Worked examples modulo 7

  /** A coefficient sequence built from literal values under modulus `m`. */
  function Literal(vs: seq<int>, m: int): (s: seq<Element>)
    ensures |s| == |vs| && forall k :: 0 <= k < |s| ==> s[k] == Element(vs[k], m)
    ensures Values(s) == vs
  {
    seq(|vs|, k requires 0 <= k < |vs| => Element(vs[k], m))
  }

  /** `1 + x + 4x^2 + 5x^3 + x^4 + 4x^5` is 2 at `x = 1` and 3 at `x = 6`, modulo 7. */
  lemma {:induction false} EvaluateExample()
    ensures Eval(Literal([1, 1, 4, 5, 1, 4], 7), 1) % 7 == 2
    ensures Eval(Literal([1, 1, 4, 5, 1, 4], 7), 6) % 7 == 3
  {
    var V := [1, 1, 4, 5, 1, 4];
    assert Pow(1, 5) == 1 && Pow(6, 5) == 7776 by {
      assert Pow(1, 0) == 1 && Pow(6, 0) == 1;
    }
    HornerEv(V, 5, 1);
    HornerEv(V, 5, 6);
    assert HornerFrom(V, 6, 5, 1) == 0 && HornerFrom(V, 6, 5, 6) == 0;
  }

  /** The sum of `[1, 1, 4, 5, 1, 4]` and `[1, 9, 1, 9, 8, 1, 0]` modulo 7 is
      `[2, 3, 5, 0, 2, 5]`: the operands need not be reduced, and the trailing
      zero is shrunk away. */
  lemma {:induction false} AddExample()
    ensures Shrunk(AddCoeffs(Literal([1, 1, 4, 5, 1, 4], 7), Literal([1, 9, 1, 9, 8, 1, 0], 7), 7))
         == [Element(2, 7), Element(3, 7), Element(5, 7), Element(0, 7), Element(2, 7), Element(5, 7)]
  {
    var a := [Element(1, 7), Element(1, 7), Element(4, 7), Element(5, 7), Element(1, 7), Element(4, 7)];
    var b := [Element(1, 7), Element(9, 7), Element(1, 7), Element(9, 7), Element(8, 7), Element(1, 7), Element(0, 7)];
    assert Literal([1, 1, 4, 5, 1, 4], 7) == a;
    assert Literal([1, 9, 1, 9, 8, 1, 0], 7) == b;
    AddExampleSum(a, b);
  }

  /** The same sum on the two operand sequences, coefficient by coefficient. */
  lemma {:induction false} AddExampleSum(a: seq<Element>, b: seq<Element>)
    requires a == [Element(1, 7), Element(1, 7), Element(4, 7), Element(5, 7), Element(1, 7), Element(4, 7)]
    requires b == [Element(1, 7), Element(9, 7), Element(1, 7), Element(9, 7), Element(8, 7), Element(1, 7), Element(0, 7)]
    ensures Shrunk(AddCoeffs(a, b, 7))
         == [Element(2, 7), Element(3, 7), Element(5, 7), Element(0, 7), Element(2, 7), Element(5, 7)]
  {
    var r := AddCoeffs(a, b, 7);
    assert |r| == 7;
    assert r[0] == Field.Add(a[0], b[0]) == Element(2, 7);
    assert r[1] == Field.Add(a[1], b[1]) == Element(3, 7);
    assert r[2] == Field.Add(a[2], b[2]) == Element(5, 7);
    assert r[3] == Field.Add(a[3], b[3]) == Element(0, 7);
    assert r[4] == Field.Add(a[4], b[4]) == Element(2, 7);
    assert r[5] == Field.Add(a[5], b[5]) == Element(5, 7);
    assert r[6] == Field.Add(NewZero(7), b[6]) == Element(0, 7);
    assert DegreeOf(r) == 5;
    assert Shrunk(r) == r[..6];
    SixElements(r[..6], [Element(2, 7), Element(3, 7), Element(5, 7), Element(0, 7), Element(2, 7), Element(5, 7)]);
  }

  /** Two six-element sequences that agree at every position are equal. */
  lemma {:induction false} SixElements(s: seq<Element>, t: seq<Element>)
    requires |s| == |t| == 6
    requires s[0] == t[0] && s[1] == t[1] && s[2] == t[2] && s[3] == t[3] && s[4] == t[4] && s[5] == t[5]
    ensures s == t
  {
  }
}
