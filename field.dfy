/** Elements of the integers modulo `modulus`, as in field/field.go: a value
    paired with the modulus it is taken under. The library's methods overwrite
    their receiver with the result; every one of them is straight-line code, so
    here each is a pure function returning the new element. */
module Field {
  import opened ModArith

  datatype Element = Element(value: int, modulus: int)

  /** Moduli are integers greater than one. */
  predicate IsModulus(m: int)
  {
    m > 1
  }

  /** The representation every operation produces: the value lies in `[0, modulus)`.
      Elements built directly from literals need not satisfy it. */
  predicate Reduced(e: Element)
  {
    0 <= e.value < e.modulus
  }

  /** `assertSameModulus` with two operands: the moduli must be equal as numbers,
      otherwise the library panics. Every binary operation requires it. */
  predicate SameModulus(a: Element, b: Element)
  {
    a.modulus == b.modulus
  }

  /** `IsZero`: the stored value has bit length zero, that is, it is exactly 0. */
  predicate IsZero(e: Element)
  {
    e.value == 0
  }

  /** `Equals`, with the moduli compared by value. */
  predicate Equals(a: Element, b: Element)
  {
    a.modulus == b.modulus && a.value == b.value
  }

  /** `r` multiplies `e` to one modulo its modulus. */
  predicate IsInverse(e: Element, r: int)
  {
    e.modulus > 0 && (e.value * r) % e.modulus == 1
  }

  /** An element with a multiplicative inverse among the residues; by
      `InvertibleIffCoprime` these are the values coprime to the modulus, on
      which `ModInverse` succeeds. */
  predicate Invertible(e: Element)
  {
    exists r :: 0 <= r < e.modulus && IsInverse(e, r)
  }

  function NewZero(modulus: int): (z: Element)
    ensures IsZero(z) && z.modulus == modulus
  {
    Element(0, modulus)
  }

  function Add(a: Element, b: Element): (r: Element)
    requires SameModulus(a, b) && a.modulus > 0
    ensures r.modulus == a.modulus && Reduced(r)
  {
    Element((a.value + b.value) % a.modulus, a.modulus)
  }

  /** Computed as `(m + a - b) mod m`; this is the remainder of the plain difference. */
  function Subtract(a: Element, b: Element): (r: Element)
    requires SameModulus(a, b) && a.modulus > 0
    ensures r.modulus == a.modulus && Reduced(r)
    ensures r.value == (a.value - b.value) % a.modulus
  {
    ModMultiple(a.value - b.value, 1, a.modulus);
    Element((a.modulus + a.value - b.value) % a.modulus, a.modulus)
  }

  function Multiply(a: Element, b: Element): (r: Element)
    requires SameModulus(a, b) && a.modulus > 0
    ensures r.modulus == a.modulus && Reduced(r)
  {
    Element((a.value * b.value) % a.modulus, a.modulus)
  }

  /** `Inverse` via extended Euclid (the library delegates to `ModInverse`, which
      yields no value when the inverse does not exist: that case is excluded). */
  function Inverse(a: Element): (r: Element)
    requires IsModulus(a.modulus) && Invertible(a)
    ensures r.modulus == a.modulus && Reduced(r)
    ensures (a.value * r.value) % a.modulus == 1
  {
    InvertibleCoprime(a);
    BezoutInverse(a.value, a.modulus);
    Element(ExtGcd(a.value % a.modulus, a.modulus).0 % a.modulus, a.modulus)
  }

  /** `DivideBy`: the dividend times the inverse of the divisor; multiplying the
      quotient back by the divisor gives the dividend modulo `m`. */
  function DivideBy(a: Element, b: Element): (r: Element)
    requires SameModulus(a, b) && IsModulus(a.modulus) && Invertible(b)
    ensures r.modulus == a.modulus && Reduced(r)
    ensures (r.value * b.value) % a.modulus == a.value % a.modulus
  {
    var m, x, y := a.modulus, a.value, b.value;
    var inv := Inverse(b).value;
    var q := (x * inv) % m;
    assert (y * inv) % m == 1;
    ModMulLeft(x * inv, y, m);
    assert (x * inv) * y == x * (y * inv);
    ModMulRight(x, y * inv, m);
    assert (q * y) % m == (x * 1) % m;
    Element(q, m)
  }

  /** `Negative`: `(m - a) mod m`, the remainder of `-a`. */
  function Negative(a: Element): (r: Element)
    requires a.modulus > 0
    ensures r.modulus == a.modulus && Reduced(r)
    ensures r.value == (-a.value) % a.modulus
  {
    ModMultiple(-a.value, 1, a.modulus);
    Element((a.modulus - a.value) % a.modulus, a.modulus)
  }

  lemma {:induction false} AddCommutative(a: Element, b: Element)
    requires SameModulus(a, b) && IsModulus(a.modulus)
    ensures Add(a, b) == Add(b, a)
  {
  }

  lemma {:induction false} AddAssociative(a: Element, b: Element, c: Element)
    requires SameModulus(a, b) && SameModulus(b, c) && IsModulus(a.modulus)
    ensures Add(Add(a, b), c) == Add(a, Add(b, c))
  {
    ModAddAssociative(a.value, b.value, c.value, a.modulus);
  }

  /** The sum is the residue of the integer sum: the two differ by a multiple of the modulus. */
  lemma {:induction false} AddIsResidue(a: Element, b: Element)
    requires SameModulus(a, b) && a.modulus > 0
    ensures (Add(a, b).value - (a.value + b.value)) % a.modulus == 0
  {
    ResidueCongruent(a.value + b.value, a.modulus);
  }

  /** The product is the residue of the integer product. */
  lemma {:induction false} MultiplyIsResidue(a: Element, b: Element)
    requires SameModulus(a, b) && a.modulus > 0
    ensures (Multiply(a, b).value - a.value * b.value) % a.modulus == 0
  {
    ResidueCongruent(a.value * b.value, a.modulus);
  }

  /** `a + (-a)` is the zero element, and the negation of zero is zero. */
  lemma {:induction false} AddNegativeIsZero(a: Element)
    requires IsModulus(a.modulus)
    ensures IsZero(Add(a, Negative(a)))
    ensures IsZero(a) ==> IsZero(Negative(a))
  {
    ModAddRight(a.value, -a.value, a.modulus);
  }

  /** Subtracting then adding back the subtrahend returns the minuend's residue. */
  lemma {:induction false} SubtractAddRoundTrip(a: Element, b: Element)
    requires SameModulus(a, b) && IsModulus(a.modulus)
    ensures Add(Subtract(a, b), b).value == a.value % a.modulus
  {
    ModAddLeft(a.value - b.value, b.value, a.modulus);
  }

  lemma {:induction false} MultiplyCommutative(a: Element, b: Element)
    requires SameModulus(a, b) && IsModulus(a.modulus)
    ensures Multiply(a, b) == Multiply(b, a)
  {
  }

  lemma {:induction false} MultiplyAssociative(a: Element, b: Element, c: Element)
    requires SameModulus(a, b) && SameModulus(b, c) && IsModulus(a.modulus)
    ensures Multiply(Multiply(a, b), c) == Multiply(a, Multiply(b, c))
  {
    var m := a.modulus;
    ModMulLeft(a.value * b.value, c.value, m);
    ModMulRight(a.value, b.value * c.value, m);
    assert (a.value * b.value) * c.value == a.value * (b.value * c.value);
  }

  /** Multiplication distributes over addition. */
  lemma {:induction false} MultiplyDistributes(a: Element, b: Element, c: Element)
    requires SameModulus(a, b) && SameModulus(b, c) && IsModulus(a.modulus)
    ensures Multiply(a, Add(b, c)) == Add(Multiply(a, b), Multiply(a, c))
  {
    var m, x, y, z := a.modulus, a.value, b.value, c.value;
    ModMulRight(x, y + z, m);
    assert x * (y + z) == x * y + x * z;
    ModAddLeft(x * y, (x * z) % m, m);
    ModAddRight(x * y, x * z, m);
    assert Multiply(a, Add(b, c)).value == (x * ((y + z) % m)) % m;
    assert Add(Multiply(a, b), Multiply(a, c)).value == ((x * y) % m + (x * z) % m) % m;
  }

  /** The inverse is unique: any reduced element that multiplies `a` to 1 is `Inverse(a)`. */
  lemma {:induction false} InverseUnique(a: Element, r: Element)
    requires IsModulus(a.modulus) && Invertible(a)
    requires r.modulus == a.modulus && Reduced(r) && (a.value * r.value) % a.modulus == 1
    ensures r == Inverse(a)
  {
    var s := Inverse(a);
    InverseResidueUnique(a.value, r.value, s.value, a.modulus);
  }

  /** For a reduced element, `IsZero` is "congruent to zero"; an unreduced
      multiple of the modulus is not reported as zero. */
  lemma {:induction false} IsZeroMeansDivisible(e: Element)
    requires IsModulus(e.modulus) && Reduced(e)
    ensures IsZero(e) <==> e.value % e.modulus == 0
  {
    ModSmall(e.value, e.modulus);
  }

  lemma {:induction false} IsZeroUnreduced()
    ensures !IsZero(Element(7, 7)) && Add(Element(7, 7), NewZero(7)) == NewZero(7)
  {
  }

  /** `Equals` is exactly equality of the (value, modulus) pair. */
  lemma {:induction false} EqualsIsIdentity(a: Element, b: Element)
    ensures Equals(a, b) <==> a == b
  {
  }

  lemma {:induction false} InvertibleCoprime(e: Element)
    requires IsModulus(e.modulus) && Invertible(e)
    ensures Gcd(e.value % e.modulus, e.modulus) == 1
  {
    var r :| 0 <= r < e.modulus && IsInverse(e, r);
    InverseCoprime(e.value, r, e.modulus);
  }

  /** An element is invertible exactly when its value is coprime to the modulus. */
  lemma {:induction false} InvertibleIffCoprime(e: Element)
    requires IsModulus(e.modulus)
    ensures Invertible(e) <==> Gcd(e.value % e.modulus, e.modulus) == 1
  {
    if Gcd(e.value % e.modulus, e.modulus) == 1 {
      BezoutInverse(e.value, e.modulus);
      var r := ExtGcd(e.value % e.modulus, e.modulus).0 % e.modulus;
      assert IsInverse(e, r);
    }
    if Invertible(e) {
      InvertibleCoprime(e);
    }
  }

  /** Invertibility depends only on the residue of the value. */
  lemma {:induction false} InvertibleCongruent(a: Element, b: Element)
    requires SameModulus(a, b) && IsModulus(a.modulus) && Invertible(a)
    requires a.value % a.modulus == b.value % a.modulus
    ensures Invertible(b)
  {
    var r :| 0 <= r < a.modulus && IsInverse(a, r);
    ModMulLeft(a.value, r, a.modulus);
    ModMulLeft(b.value, r, a.modulus);
    assert IsInverse(b, r);
  }

  /** Modulo a prime every non-zero residue is invertible. */
  lemma {:induction false} PrimeInvertible(e: Element)
    requires IsPrime(e.modulus) && e.value % e.modulus != 0
    ensures Invertible(e)
  {
    PrimeCoprime(e.value, e.modulus);
    InvertibleIffCoprime(e);
  }
}
