/** Polynomials over the integers modulo `modulus`, as in polynomial/polynomial.go:
    a modulus and a sequence of coefficients, lowest power first. Like the
    library's methods, the methods here overwrite their receiver with the
    result; each is proved to produce what the corresponding function of
    module Coefficients specifies, and the properties of those functions are
    proved there. */
module Polynomials {
  import opened ModArith
  import opened Field
  import opened PolyMath
  import opened Coefficients

  class Polynomial {
    var modulus: int
    var coefficients: seq<Element>

    /** Every coefficient carries the polynomial's modulus, which is greater than one. */
    ghost predicate Valid()
      reads this
    {
      WellFormed(coefficients, modulus)
    }

    /** A polynomial literal: the given modulus and coefficients. */
    constructor (modulus: int, coefficients: seq<Element>)
      ensures this.modulus == modulus && this.coefficients == coefficients
      ensures WellFormed(coefficients, modulus) ==> Valid()
    {
      this.modulus := modulus;
      this.coefficients := coefficients;
    }

    /** `Clone`: a new polynomial with the same modulus and a copy of the coefficients. */
    method Clone() returns (c: Polynomial)
      ensures fresh(c) && c.modulus == modulus && c.coefficients == coefficients
    {
      var coeffs: seq<Element> := [];
      for i := 0 to |coefficients|
        invariant coeffs == coefficients[..i]
      {
        coeffs := coeffs + [coefficients[i]];
      }
      c := new Polynomial(modulus, coeffs);
    }

    /** `Degree`: scan down from the top for the first non-zero stored value. */
    method Degree() returns (d: int)
      ensures d == DegreeOf(coefficients)
      ensures -1 <= d < |coefficients| && (d >= 0 ==> !Field.IsZero(coefficients[d]))
      ensures forall k :: d < k < |coefficients| ==> Field.IsZero(coefficients[k])
    {
      d := |coefficients| - 1;
      while d >= 0 && Field.IsZero(coefficients[d])
        invariant -1 <= d < |coefficients|
        invariant forall k :: d < k < |coefficients| ==> Field.IsZero(coefficients[k])
      {
        d := d - 1;
      }
    }

    /** `IsZero`: the degree is -1, that is, every stored value is exactly zero. */
    method IsZero() returns (b: bool)
      ensures b <==> forall k :: 0 <= k < |coefficients| ==> coefficients[k].value == 0
    {
      var d := Degree();
      b := d == -1;
    }

    /** `LeadingTermCoefficient`: the coefficient at the degree, or a fresh zero. */
    method LeadingTermCoefficient() returns (e: Element)
      ensures e == LeadingCoefficient(coefficients, modulus)
      ensures DegreeOf(coefficients) >= 0 ==> !Field.IsZero(e) && e == coefficients[DegreeOf(coefficients)]
      ensures DegreeOf(coefficients) == -1 ==> e == Field.NewZero(modulus)
    {
      var d := Degree();
      if d == -1 {
        e := Field.NewZero(modulus);
      } else {
        e := coefficients[d];
      }
    }

    /** `Shrink`: drop the zero coefficients above the degree, keeping at least
        one. The library slices the coefficient slice, which panics when it is empty. */
    method Shrink()
      modifies this
      requires |coefficients| > 0
      ensures modulus == old(modulus) && coefficients == Shrunk(old(coefficients))
      ensures old(Valid()) ==> Valid()
    {
      var d := Degree();
      var length := d + 1;
      if length < 1 {
        length := 1;
      }
      coefficients := coefficients[..length];
    }

    /** `Negative`: the receiver becomes `-poly`, coefficient by coefficient, not
        shrunk. Each coefficient is negated under its own modulus; no modulus is
        compared with another. */
    method Negative(poly: Polynomial)
      modifies this
      requires forall k :: 0 <= k < |poly.coefficients| ==> IsModulus(poly.coefficients[k].modulus)
      ensures modulus == old(poly.modulus) && coefficients == NegCoeffs(old(poly.coefficients))
      ensures old(poly.Valid()) ==> Valid()
    {
      var m := poly.modulus;
      var src := poly.coefficients;
      var coeffs: seq<Element> := [];
      for i := 0 to |src|
        invariant coeffs == NegCoeffs(src)[..i]
      {
        coeffs := coeffs + [Field.Negative(src[i])];
      }
      modulus := m;
      coefficients := coeffs;
    }

    /** `CoefficientAt`: the stored coefficient, or a fresh zero past the end
        (a negative index panics in the library). */
    method CoefficientAt(index: int) returns (e: Element)
      requires 0 <= index
      ensures e == Coefficients.CoefficientAt(coefficients, modulus, index)
      ensures e.value == Coef(Values(coefficients), index)
      ensures Valid() ==> e.modulus == modulus
    {
      if index < |coefficients| {
        e := coefficients[index];
      } else {
        e := Field.NewZero(modulus);
      }
    }

    /** `Add`: the receiver becomes `a + b`, shrunk. Both operands must share
        the modulus, and shrinking panics when both are empty. */
    method Add(a: Polynomial, b: Polynomial)
      modifies this
      requires a.Valid() && b.Valid() && a.modulus == b.modulus
      requires MaxLen(a.coefficients, b.coefficients) > 0
      ensures modulus == old(a.modulus) && Valid()
      ensures coefficients == Shrunk(AddCoeffs(old(a.coefficients), old(b.coefficients), old(a.modulus)))
    {
      var m := a.modulus;
      var A, B := a.coefficients, b.coefficients;
      var coeffs: seq<Element> := [];
      for i := 0 to MaxLen(A, B)
        modifies {}
        invariant coeffs == AddCoeffs(A, B, m)[..i]
      {
        var x := a.CoefficientAt(i);
        var y := b.CoefficientAt(i);
        coeffs := coeffs + [Field.Add(x, y)];
      }
      modulus := m;
      coefficients := coeffs;
      assert coeffs == AddCoeffs(A, B, m) && Valid();
      Shrink();
    }

    /** `Subtract`: the receiver becomes `a - b`, shrunk. */
    method Subtract(a: Polynomial, b: Polynomial)
      modifies this
      requires a.Valid() && b.Valid() && a.modulus == b.modulus
      requires MaxLen(a.coefficients, b.coefficients) > 0
      ensures modulus == old(a.modulus) && Valid()
      ensures coefficients == Shrunk(SubCoeffs(old(a.coefficients), old(b.coefficients), old(a.modulus)))
    {
      var m := a.modulus;
      var A, B := a.coefficients, b.coefficients;
      var coeffs: seq<Element> := [];
      for i := 0 to MaxLen(A, B)
        modifies {}
        invariant coeffs == SubCoeffs(A, B, m)[..i]
      {
        var x := a.CoefficientAt(i);
        var y := b.CoefficientAt(i);
        coeffs := coeffs + [Field.Subtract(x, y)];
      }
      modulus := m;
      coefficients := coeffs;
      assert coeffs == SubCoeffs(A, B, m) && Valid();
      Shrink();
    }

    /** `Multiply`: the receiver becomes `a * b`. A zero operand gives a single
        zero coefficient; otherwise every product `a_i * b_j` up to the degrees
        is added into the accumulator cell `i + j`, and the result is shrunk. */
    method Multiply(a: Polynomial, b: Polynomial)
      modifies this
      requires a.Valid() && b.Valid() && a.modulus == b.modulus
      ensures modulus == old(a.modulus) && Valid()
      ensures coefficients == ProductCoeffs(old(a.coefficients), old(b.coefficients), old(a.modulus))
    {
      var m := a.modulus;
      var A, B := a.coefficients, b.coefficients;
      var zeroA := a.IsZero();
      var zeroB := b.IsZero();
      if zeroA || zeroB {
        assert DegreeOf(A) == -1 || DegreeOf(B) == -1;
        modulus := m;
        coefficients := [Field.NewZero(m)];
        return;
      }
      var degreeA := a.Degree();
      var degreeB := b.Degree();
      var coeffs := ProductAccumulator(a, b, degreeA, degreeB);
      ghost var product := coeffs[..];
      assert product == Convolution(A, B, m);
      modulus := m;
      coefficients := coeffs[..];
      Shrink();
      assert coefficients == Shrunk(product);
    }

    /** The accumulation loops of `Multiply`, for two non-zero operands: a zeroed
        buffer of `degreeA + degreeB + 1` cells, cell `i + j` receiving the
        field sum of the products `a_i * b_j`. */
    static method ProductAccumulator(a: Polynomial, b: Polynomial, degreeA: int, degreeB: int) returns (coeffs: array<Element>)
      requires a.Valid() && b.Valid() && a.modulus == b.modulus
      requires degreeA == DegreeOf(a.coefficients) >= 0 && degreeB == DegreeOf(b.coefficients) >= 0
      ensures fresh(coeffs) && coeffs[..] == Convolution(a.coefficients, b.coefficients, a.modulus)
    {
      var m := a.modulus;
      var A, B := a.coefficients, b.coefficients;
      coeffs := new Element[degreeA + degreeB + 1](_ => Field.NewZero(m));
      AccumulatedStart(A, B, coeffs.Length, m);
      for i := 0 to degreeA + 1
        modifies coeffs
        invariant coeffs[..] == Accumulated(A, B, i, 0, coeffs.Length, m)
      {
        AccumulateRow(a, b, degreeB, coeffs, i);
      }
      AccumulatedEnd(A, B, m);
    }

    /** One turn of the outer loop of `Multiply`: the inner loop adds the
        products `a_i * b_j` into cells `i + j`, completing row `i`. */
    static method AccumulateRow(a: Polynomial, b: Polynomial, degreeB: int, coeffs: array<Element>, i: nat)
      requires a.Valid() && b.Valid() && a.modulus == b.modulus
      requires degreeB == DegreeOf(b.coefficients) >= 0 && i + degreeB < coeffs.Length
      requires coeffs[..] == Accumulated(a.coefficients, b.coefficients, i, 0, coeffs.Length, a.modulus)
      modifies coeffs
      ensures coeffs[..] == Accumulated(a.coefficients, b.coefficients, i + 1, 0, coeffs.Length, a.modulus)
    {
      var m := a.modulus;
      var A, B := a.coefficients, b.coefficients;
      for j := 0 to degreeB + 1
        modifies coeffs
        invariant coeffs[..] == Accumulated(A, B, i, j, coeffs.Length, m)
      {
        var x := a.CoefficientAt(i);
        var y := b.CoefficientAt(j);
        var item := Field.Multiply(x, y);
        AccumulatedStep(A, B, i, j, coeffs.Length, m);
        ghost var before := coeffs[..];
        coeffs[i + j] := Field.Add(coeffs[i + j], item);
        assert coeffs[..] == before[i + j := Field.Add(before[i + j], item)];
      }
      AccumulatedRow(A, B, i, coeffs.Length, m);
    }

    /** `DivideBy`: the receiver becomes the quotient of `DivMod`. */
    method DivideBy(dividend: Polynomial, divisor: Polynomial)
      modifies this
      requires dividend.Valid() && divisor.Valid() && dividend.modulus == divisor.modulus
      requires DegreeOf(divisor.coefficients) >= 0
      requires DegreeOf(dividend.coefficients) >= DegreeOf(divisor.coefficients)
               ==> Invertible(LeadingCoefficient(divisor.coefficients, divisor.modulus))
      ensures modulus == old(dividend.modulus) && Valid()
      ensures coefficients == DivModCoeffs(old(dividend.coefficients), old(divisor.coefficients), old(dividend.modulus)).0
    {
      var quotient, _ := DivMod(dividend, divisor);
      modulus := quotient.modulus;
      coefficients := quotient.coefficients;
    }

    /** `Modulo`: the receiver becomes the remainder of `DivMod`. */
    method Modulo(dividend: Polynomial, divisor: Polynomial)
      modifies this
      requires dividend.Valid() && divisor.Valid() && dividend.modulus == divisor.modulus
      requires DegreeOf(divisor.coefficients) >= 0
      requires DegreeOf(dividend.coefficients) >= DegreeOf(divisor.coefficients)
               ==> Invertible(LeadingCoefficient(divisor.coefficients, divisor.modulus))
      ensures modulus == old(dividend.modulus) && Valid()
      ensures coefficients == DivModCoeffs(old(dividend.coefficients), old(divisor.coefficients), old(dividend.modulus)).1
    {
      var _, remainder := DivMod(dividend, divisor);
      modulus := remainder.modulus;
      coefficients := remainder.coefficients;
    }

    /** `Equals` as written: the receiver is shrunk in place, a shrunk clone
        of `other` is made and not used, and the receiver is compared
        coefficient by coefficient with `other` as stored. Shrinking panics on
        an empty coefficient slice. */
    method Equals(other: Polynomial) returns (b: bool)
      modifies this
      requires |coefficients| > 0 && |other.coefficients| > 0
      ensures modulus == old(modulus) && coefficients == Shrunk(old(coefficients))
      ensures old(Valid()) ==> Valid()
      ensures b == ElementwiseEqual(coefficients, other.coefficients)
      ensures other != this ==> b == EqualsAsWritten(old(coefficients), old(other.coefficients))
    {
      var otherClone := other.Clone();
      otherClone.Shrink();
      Shrink();
      if |coefficients| != |other.coefficients| {
        return false;
      }
      for i := 0 to |coefficients|
        invariant forall k :: 0 <= k < i ==> Field.Equals(coefficients[k], other.coefficients[k])
      {
        if !Field.Equals(coefficients[i], other.coefficients[i]) {
          return false;
        }
      }
      return true;
    }

    /** `Equals` as evidently intended: the receiver is shrunk in place as in
        the library, and compared with the shrunk clone of `other`. */
    method EqualsShrinkingBoth(other: Polynomial) returns (b: bool)
      modifies this
      requires |coefficients| > 0 && |other.coefficients| > 0
      ensures modulus == old(modulus) && coefficients == Shrunk(old(coefficients))
      ensures old(Valid()) ==> Valid()
      ensures b == Coefficients.EqualsShrinkingBoth(old(coefficients), old(other.coefficients))
    {
      var otherClone := other.Clone();
      otherClone.Shrink();
      Shrink();
      if |coefficients| != |otherClone.coefficients| {
        return false;
      }
      for i := 0 to |coefficients|
        invariant forall k :: 0 <= k < i ==> Field.Equals(coefficients[k], otherClone.coefficients[k])
      {
        if !Field.Equals(coefficients[i], otherClone.coefficients[i]) {
          return false;
        }
      }
      return true;
    }

    /** `EvaluateAt`: Horner's rule from the degree down, in field arithmetic.
        The point must share the modulus unless the polynomial is zero (the
        loop never multiplies then). */
    method EvaluateAt(x: Element) returns (result: Element)
      requires Valid()
      requires DegreeOf(coefficients) >= 0 ==> x.modulus == modulus
      ensures result.modulus == modulus && Reduced(result)
      ensures result.value == Eval(coefficients, x.value) % modulus
    {
      var m := modulus;
      var V := Values(coefficients);
      result := Field.NewZero(m);
      var d := Degree();
      var i := d;
      while i >= 0
        invariant -1 <= i <= d
        invariant result.modulus == m && Reduced(result)
        invariant result.value == HornerFrom(V, i + 1, d, x.value) % m
        decreases i
      {
        var item1 := Field.Multiply(result, x);
        var item2 := CoefficientAt(i);
        HornerStep(HornerFrom(V, i + 1, d, x.value), result.value, item2.value, x.value, m);
        result := Field.Add(item1, item2);
        i := i - 1;
      }
      HornerEv(V, d, x.value);
      EvNZeroTail(V, d + 1, |V|, x.value);
    }
  }

  /** The remainder after the inner loop of `DivMod`'s turn `i` has processed
      the divisor coefficients `0..j-1`. */
  function PartiallySubtracted(r: seq<Element>, c: Element, d: seq<Element>, i: nat, j: nat, m: int): (r': seq<Element>)
    requires WellFormed(r, m) && WellFormed(d, m) && c.modulus == m && i + j <= |r|
    ensures |r'| == |r| && WellFormed(r', m)
  {
    seq(|r|, k requires 0 <= k < |r| =>
      if i <= k < i + j then Field.Subtract(r[k], Field.Multiply(c, Coefficients.CoefficientAt(d, m, k - i))) else r[k])
  }

  lemma {:induction false} PartiallySubtractedStep(r: seq<Element>, c: Element, d: seq<Element>, i: nat, j: nat, m: int)
    requires WellFormed(r, m) && WellFormed(d, m) && c.modulus == m && i + j < |r|
    ensures var p := PartiallySubtracted(r, c, d, i, j, m);
            p[i + j := Field.Subtract(p[i + j], Field.Multiply(c, Coefficients.CoefficientAt(d, m, j)))]
            == PartiallySubtracted(r, c, d, i, j + 1, m)
  {
  }

  lemma {:induction false} PartiallySubtractedDone(r: seq<Element>, c: Element, d: seq<Element>, i: nat, dm: nat, m: int)
    requires WellFormed(r, m) && WellFormed(d, m) && c.modulus == m && i + dm < |r|
    ensures PartiallySubtracted(r, c, d, i, 0, m) == r
    ensures PartiallySubtracted(r, c, d, i, dm + 1, m) == SubtractRow(r, c, d, i, dm, m)
  {
  }

  /** The inner loop of `DivMod`'s turn `i`: subtract `c * d_j` from the
      remainder cell `i + j` for every `j` up to the divisor's degree. */
  method SubtractMultiple(remainderCoefficients: array<Element>, c: Element, divisor: Polynomial, i: nat, dm: nat)
    modifies remainderCoefficients
    requires divisor.Valid() && c.modulus == divisor.modulus && dm == DegreeOf(divisor.coefficients)
    requires WellFormed(remainderCoefficients[..], divisor.modulus) && i + dm < remainderCoefficients.Length
    ensures remainderCoefficients[..] == SubtractRow(old(remainderCoefficients[..]), c, divisor.coefficients, i, dm, divisor.modulus)
  {
    var m, D := divisor.modulus, divisor.coefficients;
    ghost var rs := remainderCoefficients[..];
    PartiallySubtractedDone(rs, c, D, i, dm, m);
    for j := 0 to dm + 1
      invariant remainderCoefficients[..] == PartiallySubtracted(rs, c, D, i, j, m)
    {
      var coefficient := divisor.CoefficientAt(j);
      var item := Field.Multiply(c, coefficient);
      PartiallySubtractedStep(rs, c, D, i, j, m);
      remainderCoefficients[i + j] := Field.Subtract(remainderCoefficients[i + j], item);
    }
  }

  /** One turn of `DivMod`'s outer loop at quotient index `i`; `n == i + dm`. */
  method DivisionTurn(quotientCoefficients: array<Element>, remainderCoefficients: array<Element>,
                      divisor: Polynomial, iv: Element, i: nat, n: nat)
    modifies quotientCoefficients, remainderCoefficients
    requires quotientCoefficients != remainderCoefficients
    requires divisor.Valid() && iv.modulus == divisor.modulus && DegreeOf(divisor.coefficients) >= 0
    requires n == i + DegreeOf(divisor.coefficients)
    requires WellFormed(quotientCoefficients[..], divisor.modulus) && WellFormed(remainderCoefficients[..], divisor.modulus)
    requires i < quotientCoefficients.Length && n < remainderCoefficients.Length
    ensures (quotientCoefficients[..], remainderCoefficients[..])
         == DivStep(old(quotientCoefficients[..]), old(remainderCoefficients[..]), divisor.coefficients, iv, i,
                    DegreeOf(divisor.coefficients), divisor.modulus)
  {
    var m, D, dm := divisor.modulus, divisor.coefficients, DegreeOf(divisor.coefficients);
    ghost var qs, rs := quotientCoefficients[..], remainderCoefficients[..];
    quotientCoefficients[i] := Field.Multiply(remainderCoefficients[n], iv);
    var c := quotientCoefficients[i];
    assert c == Field.Multiply(rs[i + dm], iv) && quotientCoefficients[..] == qs[i := c];
    if !Field.IsZero(c) {
      SubtractMultiple(remainderCoefficients, c, divisor, i, dm);
    }
    DivStepUnfold(qs, rs, D, iv, i, dm, m);
  }

  /** The outer loop of `DivMod`, from quotient index `q` down to 0; `n`
      tracks the remainder index `i + dm` that the turn at `i` clears. */
  method LongDivisionLoop(quotientCoefficients: array<Element>, remainderCoefficients: array<Element>,
                          divisor: Polynomial, iv: Element, q: int, n: int)
    modifies quotientCoefficients, remainderCoefficients
    requires quotientCoefficients != remainderCoefficients
    requires divisor.Valid() && iv.modulus == divisor.modulus && DegreeOf(divisor.coefficients) >= 0
    requires WellFormed(quotientCoefficients[..], divisor.modulus) && WellFormed(remainderCoefficients[..], divisor.modulus)
    requires q == quotientCoefficients.Length - 1 && n == q + DegreeOf(divisor.coefficients) < remainderCoefficients.Length
    ensures (quotientCoefficients[..], remainderCoefficients[..])
         == LongDivide(old(quotientCoefficients[..]), old(remainderCoefficients[..]), divisor.coefficients, iv, q,
                       DegreeOf(divisor.coefficients), divisor.modulus)
  {
    var m, D, dm := divisor.modulus, divisor.coefficients, DegreeOf(divisor.coefficients);
    ghost var Q0, R0 := quotientCoefficients[..], remainderCoefficients[..];
    var i, top := q, n;
    while i >= 0
      invariant -1 <= i <= q && top == i + dm
      invariant WellFormed(quotientCoefficients[..], m) && WellFormed(remainderCoefficients[..], m)
      invariant LongDivide(quotientCoefficients[..], remainderCoefficients[..], D, iv, i, dm, m)
             == LongDivide(Q0, R0, D, iv, q, dm, m)
      decreases i
    {
      DivisionTurn(quotientCoefficients, remainderCoefficients, divisor, iv, i, top);
      top := top - 1;
      i := i - 1;
    }
  }

  /** `DivMod`: long division of `dividend` by `divisor`, returning new
      quotient and remainder polynomials. The library panics on a zero divisor,
      and (through a missing inverse) on a leading coefficient that is not
      invertible once the loop runs. */
  method DivMod(dividend: Polynomial, divisor: Polynomial) returns (quotient: Polynomial, remainder: Polynomial)
    requires dividend.Valid() && divisor.Valid() && dividend.modulus == divisor.modulus
    requires DegreeOf(divisor.coefficients) >= 0
    requires DegreeOf(dividend.coefficients) >= DegreeOf(divisor.coefficients)
             ==> Invertible(LeadingCoefficient(divisor.coefficients, divisor.modulus))
    ensures fresh(quotient) && fresh(remainder)
    ensures quotient.modulus == dividend.modulus && remainder.modulus == dividend.modulus
    ensures quotient.coefficients == DivModCoeffs(dividend.coefficients, divisor.coefficients, dividend.modulus).0
    ensures remainder.coefficients == DivModCoeffs(dividend.coefficients, divisor.coefficients, dividend.modulus).1
  {
    var m := dividend.modulus;
    var A, D := dividend.coefficients, divisor.coefficients;
    ghost var expected := DivModCoeffs(A, D, m);
    var n := dividend.Degree();
    var dm := divisor.Degree();
    var q := n - dm;
    if q <= -1 {
      assert expected == ([], A);
      quotient := NewZero(m);
      remainder := dividend.Clone();
      return;
    }
    var quotientCoefficients, remainderCoefficients := DivModLoop(dividend, divisor, n, dm);
    quotient := new Polynomial(m, quotientCoefficients);
    remainder := new Polynomial(m, remainderCoefficients);
    quotient.Shrink();
    remainder.Shrink();
  }

  /** The working part of `DivMod` once the dividend's degree `n` reaches the
      divisor's degree `dm`: a zero quotient of `n - dm + 1` coefficients, a
      clone of the dividend as the remainder, and the outer loop over them.
      Shrinking both gives exactly `DivModCoeffs`. */
  method DivModLoop(dividend: Polynomial, divisor: Polynomial, n: int, dm: int)
    returns (quotientCoefficients: seq<Element>, remainderCoefficients: seq<Element>)
    requires dividend.Valid() && divisor.Valid() && dividend.modulus == divisor.modulus
    requires n == DegreeOf(dividend.coefficients) && dm == DegreeOf(divisor.coefficients) && 0 <= dm <= n
    requires Invertible(LeadingCoefficient(divisor.coefficients, divisor.modulus))
    ensures |quotientCoefficients| > 0 && |remainderCoefficients| > 0
    ensures DivModCoeffs(dividend.coefficients, divisor.coefficients, dividend.modulus)
         == (Shrunk(quotientCoefficients), Shrunk(remainderCoefficients))
  {
    var m := dividend.modulus;
    var A, D := dividend.coefficients, divisor.coefficients;
    var q := n - dm;
    var lead := divisor.LeadingTermCoefficient();
    var iv := Field.Inverse(lead);
    var qs := new Element[q + 1](_ => Field.NewZero(m));
    var clone := dividend.Clone();
    var R0 := clone.coefficients;
    var rs := new Element[|R0|](k requires 0 <= k < |R0| => R0[k]);
    assert qs[..] == Zeros(q + 1, m);
    assert rs[..] == A;
    LongDivisionLoop(qs, rs, divisor, iv, q, n);
    DivModCoeffsUnfold(A, D, m);
    quotientCoefficients, remainderCoefficients := qs[..], rs[..];
  }

  lemma {:induction false} DivStepUnfold(q: seq<Element>, r: seq<Element>, d: seq<Element>, iv: Element, i: nat, dm: nat, m: int)
    requires WellFormed(q, m) && WellFormed(r, m) && WellFormed(d, m) && iv.modulus == m
    requires i < |q| && i + dm < |r|
    ensures var c := Field.Multiply(r[i + dm], iv);
            DivStep(q, r, d, iv, i, dm, m) == (q[i := c], if Field.IsZero(c) then r else SubtractRow(r, c, d, i, dm, m))
  {
  }

  lemma {:induction false} DivModCoeffsUnfold(a: seq<Element>, d: seq<Element>, m: int)
    requires WellFormed(a, m) && WellFormed(d, m) && 0 <= DegreeOf(d) <= DegreeOf(a)
    requires Invertible(LeadingCoefficient(d, m))
    ensures var n, dm := DegreeOf(a), DegreeOf(d);
            var fin := LongDivide(Zeros(n - dm + 1, m), a, d, Inverse(LeadingCoefficient(d, m)), n - dm, dm, m);
            DivModCoeffs(a, d, m) == (Shrunk(fin.0), Shrunk(fin.1))
  {
  }

  /** The part of row `i` of the product already accumulated after the inner loop reached `j`. */
  function PartialRow(A: seq<Element>, B: seq<Element>, i: int, j: int, k: int): int
  {
    if i <= k < i + j then Coef(Values(A), i) * Coef(Values(B), k - i) else 0
  }

  /** The accumulator of `Multiply` after rows `0..i-1` and the first `j` products of row `i`. */
  function Accumulated(A: seq<Element>, B: seq<Element>, i: int, j: int, len: nat, m: int): (s: seq<Element>)
    requires m > 0
    ensures |s| == len
  {
    seq(len, k => Element((RowSum(Values(A), Values(B), 0, i, k) + PartialRow(A, B, i, j, k)) % m, m))
  }

  lemma {:induction false} AccumulatedStart(A: seq<Element>, B: seq<Element>, len: nat, m: int)
    requires m > 0
    ensures Accumulated(A, B, 0, 0, len, m) == seq(len, _ => Field.NewZero(m))
  {
  }

  lemma {:induction false} AccumulatedStep(A: seq<Element>, B: seq<Element>, i: nat, j: nat, len: nat, m: int)
    requires WellFormed(A, m) && WellFormed(B, m) && i + j < len
    ensures var acc := Accumulated(A, B, i, j, len, m);
            var item := Field.Multiply(Coefficients.CoefficientAt(A, m, i), Coefficients.CoefficientAt(B, m, j));
            acc[i + j := Field.Add(acc[i + j], item)] == Accumulated(A, B, i, j + 1, len, m)
  {
    var acc := Accumulated(A, B, i, j, len, m);
    var x, y := Coefficients.CoefficientAt(A, m, i), Coefficients.CoefficientAt(B, m, j);
    var item := Field.Multiply(x, y);
    var s := RowSum(Values(A), Values(B), 0, i, i + j);
    var next := Accumulated(A, B, i, j + 1, len, m);
    var updated := acc[i + j := Field.Add(acc[i + j], item)];
    forall k | 0 <= k < len
      ensures updated[k] == next[k]
    {
      if k == i + j {
        assert acc[k].value == s % m;
        AccumulateStep(s, item.value, x.value * y.value, m);
      } else {
        assert PartialRow(A, B, i, j, k) == PartialRow(A, B, i, j + 1, k);
      }
    }
  }

  lemma {:induction false} AccumulatedRow(A: seq<Element>, B: seq<Element>, i: int, len: nat, m: int)
    requires DegreeOf(B) >= 0 && m > 0
    ensures Accumulated(A, B, i, DegreeOf(B) + 1, len, m) == Accumulated(A, B, i + 1, 0, len, m)
  {
    forall k | 0 <= k < len
      ensures RowSum(Values(A), Values(B), 0, i, k) + PartialRow(A, B, i, DegreeOf(B) + 1, k)
           == RowSum(Values(A), Values(B), 0, i + 1, k)
    {
      assert k - i > DegreeOf(B) ==> Coef(Values(B), k - i) == 0;
    }
  }

  lemma {:induction false} AccumulatedEnd(A: seq<Element>, B: seq<Element>, m: int)
    requires DegreeOf(A) >= 0 && DegreeOf(B) >= 0 && IsModulus(m)
    ensures Accumulated(A, B, DegreeOf(A) + 1, 0, DegreeOf(A) + DegreeOf(B) + 1, m) == Convolution(A, B, m)
  {
  }

  /** Adding a reduced product to a reduced partial sum keeps it the residue of the exact sum. */
  lemma {:induction false} AccumulateStep(s: int, t: int, p: int, m: int)
    requires m > 0 && t == p % m
    ensures (s % m + t) % m == (s + p) % m
  {
    ModAddLeft(s, t, m);
    ModAddRight(s, p, m);
  }

  /** One turn of Horner's rule, in residues. */
  lemma {:induction false} HornerStep(h: int, r: int, c: int, x: int, m: int)
    requires m > 0 && r == h % m
    ensures ((r * x) % m + c) % m == (c + x * h) % m
  {
    ModMulLeft(h, x, m);
    ModAddLeft(h * x, c, m);
    assert h * x + c == c + x * h;
  }

  /** `NewZero`: a polynomial with no coefficients at all. */
  method NewZero(modulus: int) returns (p: Polynomial)
    ensures fresh(p) && p.modulus == modulus && p.coefficients == []
  {
    p := new Polynomial(modulus, []);
  }
}
