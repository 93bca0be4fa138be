/** Facts about Euclidean remainder, greatest common divisors and primes that
    the field and polynomial layers are built on. Dafny's `%` on `int` is the
    Euclidean remainder (never negative), which is also what the arbitrary
    precision `Mod` of the modelled library computes for a positive modulus. */
module ModArith {

  /** A decomposition `a == q * m + r` with `0 <= r < m` fixes quotient and remainder. */
  lemma {:induction false} ModUnique(a: int, q: int, r: int, m: int)
    requires m > 0 && 0 <= r < m && a == q * m + r
    ensures a % m == r && a / m == q
  {
    var q0, r0 := a / m, a % m;
    var d := q - q0;
    assert d * m == q * m - q0 * m;
    assert d * m == r0 - r;
  }

  /** Adding a multiple of the modulus does not change the remainder. */
  lemma {:induction false} ModMultiple(a: int, k: int, m: int)
    requires m > 0
    ensures (a + k * m) % m == a % m
  {
    assert a + k * m == (a / m + k) * m + a % m;
    ModUnique(a + k * m, a / m + k, a % m, m);
  }

  lemma {:induction false} ModAddLeft(a: int, b: int, m: int)
    requires m > 0
    ensures (a % m + b) % m == (a + b) % m
  {
    ModMultiple(a % m + b, a / m, m);
  }

  lemma {:induction false} ModAddRight(a: int, b: int, m: int)
    requires m > 0
    ensures (a + b % m) % m == (a + b) % m
  {
    ModAddLeft(b, a, m);
  }

  lemma {:induction false} ModSubRight(a: int, b: int, m: int)
    requires m > 0
    ensures (a - b % m) % m == (a - b) % m
  {
    ModMultiple(a - b % m, -(b / m), m);
    assert a - b % m + -(b / m) * m == a - b;
  }

  lemma {:induction false} ModMulLeft(a: int, b: int, m: int)
    requires m > 0
    ensures ((a % m) * b) % m == (a * b) % m
  {
    var q := a / m;
    calc {
      a * b;
      (q * m + a % m) * b;
      (a % m) * b + (q * b) * m;
    }
    ModMultiple((a % m) * b, q * b, m);
  }

  lemma {:induction false} ModMulRight(a: int, b: int, m: int)
    requires m > 0
    ensures (a * (b % m)) % m == (a * b) % m
  {
    ModMulLeft(b, a, m);
  }

  lemma {:induction false} ModAddAssociative(x: int, y: int, z: int, m: int)
    requires m > 0
    ensures ((x + y) % m + z) % m == (x + (y + z) % m) % m
  {
    calc {
      ((x + y) % m + z) % m;
      { ModAddLeft(x + y, z, m); }
      ((x + y) + z) % m;
      { assert (x + y) + z == x + (y + z); }
      (x + (y + z)) % m;
      { ModAddRight(x, y + z, m); }
      (x + (y + z) % m) % m;
    }
  }

  /** Congruence is preserved by addition and multiplication on either side. */
  lemma {:induction false} CongAdd(a: int, a': int, b: int, b': int, m: int)
    requires m > 0 && a % m == a' % m && b % m == b' % m
    ensures (a + b) % m == (a' + b') % m
  {
    ModAddLeft(a, b, m); ModAddLeft(a', b, m);
    ModAddRight(a', b, m); ModAddRight(a', b', m);
  }

  lemma {:induction false} CongSub(a: int, a': int, b: int, b': int, m: int)
    requires m > 0 && a % m == a' % m && b % m == b' % m
    ensures (a - b) % m == (a' - b') % m
  {
    ModAddLeft(a, -b, m); ModAddLeft(a', -b, m);
    ModSubRight(a', b, m); ModSubRight(a', b', m);
  }

  lemma {:induction false} CongMul(a: int, a': int, b: int, b': int, m: int)
    requires m > 0 && a % m == a' % m && b % m == b' % m
    ensures (a * b) % m == (a' * b') % m
  {
    ModMulLeft(a, b, m); ModMulLeft(a', b, m);
    ModMulRight(a', b, m); ModMulRight(a', b', m);
  }

  /** A factor with an inverse modulo `m` can be cancelled from a product divisible by `m`. */
  lemma {:induction false} UnitCancel(x: int, d: int, inv: int, m: int)
    requires m > 0 && (d * inv) % m == 1 && (x * d) % m == 0
    ensures x % m == 0
  {
    ModMulRight(x, d * inv, m);
    assert x * (d * inv) == (x * d) * inv;
    ModMulLeft(x * d, inv, m);
  }

  /** Two residues that both multiply `x` to 1 modulo `m` are equal. */
  lemma {:induction false} InverseResidueUnique(x: int, r: int, s: int, m: int)
    requires 0 <= r < m && 0 <= s < m
    requires (x * r) % m == 1 && (x * s) % m == 1
    ensures r == s
  {
    // r == r * (x * s) == (x * r) * s == s  (mod m)
    calc {
      r;
      { ModSmall(r, m); }
      r % m;
      { ModSmall(1, m); }
      (r * 1) % m;
      { ModMulRight(r, x * s, m); }
      (r * (x * s)) % m;
      { assert r * (x * s) == (x * r) * s; }
      ((x * r) * s) % m;
      { ModMulLeft(x * r, s, m); }
      (1 * s) % m;
      { ModSmall(s, m); }
      s;
    }
  }

  /** A number and its residue differ by a multiple of the modulus. */
  lemma {:induction false} ResidueCongruent(a: int, m: int)
    requires m > 0
    ensures (a % m - a) % m == 0
  {
    assert a % m - a == 0 + (-(a / m)) * m;
    ModMultiple(0, -(a / m), m);
  }

  /** A value already in `[0, m)` is its own remainder. */
  lemma {:induction false} ModSmall(a: int, m: int)
    requires 0 <= a < m
    ensures a % m == a
  {
    ModUnique(a, 0, a, m);
  }

  /** `m` divides `a` exactly when `a` is a multiple of `m`. */
  lemma {:induction false} ModZeroMultiple(a: int, m: int)
    requires m > 0 && a % m == 0
    ensures a == (a / m) * m
  {
  }

  function Gcd(a: nat, b: nat): nat
    decreases b
  {
    if b == 0 then a else Gcd(b, a % b)
  }

  /** Extended Euclid: Bezout coefficients `(x, y)` with `a*x + b*y == Gcd(a, b)`. */
  function ExtGcd(a: nat, b: nat): (xy: (int, int))
    ensures a * xy.0 + b * xy.1 == Gcd(a, b)
    decreases b
  {
    if b == 0 then (1, 0)
    else
      var xy' := ExtGcd(b, a % b);
      var x, y := xy'.0, xy'.1;
      assert a % b == a - (a / b) * b;
      assert b * x + (a - (a / b) * b) * y == Gcd(a, b);
      assert a * y + b * (x - (a / b) * y) == b * x + (a - (a / b) * b) * y;
      (y, x - (a / b) * y)
  }

  /** The gcd divides both arguments. */
  lemma {:induction false} GcdDivides(a: nat, b: nat)
    requires a > 0 || b > 0
    ensures Gcd(a, b) > 0 && a % Gcd(a, b) == 0 && b % Gcd(a, b) == 0
    decreases b
  {
    if b == 0 {
      ModUnique(a, 1, 0, a);
      ModUnique(0, 0, 0, a);
    } else {
      GcdDivides(b, a % b);
      MultipleCombination(a, a / b, b, a % b, Gcd(b, a % b));
    }
  }

  /** A combination `q * b + r` of two multiples of `g` is a multiple of `g`. */
  lemma {:induction false} MultipleCombination(a: int, q: int, b: int, r: int, g: int)
    requires g > 0 && a == q * b + r && b % g == 0 && r % g == 0
    ensures a % g == 0
  {
    var bg, rg := b / g, r / g;
    ModZeroMultiple(b, g);
    ModZeroMultiple(r, g);
    assert q * b == (q * bg) * g by {
      assert b == bg * g;
    }
    assert a == (q * bg + rg) * g + 0;
    ModUnique(a, q * bg + rg, 0, g);
  }

  /** A positive multiple of `d > 0` is at least `d`. */
  lemma {:induction false} DivisorBound(n: int, d: int)
    requires n > 0 && d > 0 && n % d == 0
    ensures d <= n
  {
    ModZeroMultiple(n, d);
    var k := n / d;
    assert k >= 1;
    assert (k - 1) * d >= 0;
  }

  predicate Divides(d: int, n: int)
  {
    d != 0 && n % d == 0
  }

  predicate IsPrime(p: int)
  {
    p > 1 && forall d :: 1 < d < p ==> !Divides(d, p)
  }

  /** Modulo a prime, every value that is not a multiple of it is coprime to it. */
  lemma {:induction false} PrimeCoprime(a: int, p: int)
    requires IsPrime(p) && a % p != 0
    ensures Gcd(a % p, p) == 1
  {
    var r := a % p;
    GcdDivides(r, p);
    var g := Gcd(r, p);
    DivisorBound(r, g);
    if g > 1 {
      assert Divides(g, p);
      assert false;
    }
  }

  /** From Bezout: a value coprime to `m` has an inverse modulo `m`. */
  lemma {:induction false} BezoutInverse(a: int, m: int)
    requires m > 1 && Gcd(a % m, m) == 1
    ensures (a * (ExtGcd(a % m, m).0 % m)) % m == 1
  {
    var xy := ExtGcd(a % m, m);
    var x, y := xy.0, xy.1;
    assert (a % m) * x + m * y == 1;
    ModMultiple((a % m) * x, y, m);
    ModSmall(1, m);
    assert ((a % m) * x) % m == 1;
    ModMulLeft(a, x, m);
    ModMulRight(a, x, m);
  }

  /** Conversely, a value with an inverse modulo `m` is coprime to `m`: the gcd
      divides `x * r - k * m == 1`. */
  lemma {:induction false} InverseCoprime(x: int, r: int, m: int)
    requires m > 1 && (x * r) % m == 1
    ensures Gcd(x % m, m) == 1
  {
    var a := x % m;
    ModMulLeft(x, r, m);
    assert a * r != 0;
    GcdDivides(a, m);
    var g := Gcd(a, m);
    var k := (a * r) / m;
    assert a * r == k * m + 1;
    MultipleCombination(a * r, r, a, 0, g);
    MultipleCombination(1, -k, m, a * r, g);
    if g > 1 {
      ModSmall(1, g);
    }
  }

  /** Euclid's lemma: a prime that divides neither factor does not divide the product. */
  lemma {:induction false} PrimeProductNonzero(a: int, b: int, p: int)
    requires IsPrime(p) && a % p != 0 && b % p != 0
    ensures (a * b) % p != 0
  {
    if (a * b) % p == 0 {
      var r := a % p;
      PrimeCoprime(a, p);
      var xy := ExtGcd(r, p);
      var x, y := xy.0, xy.1;
      assert r * x + p * y == 1;
      ModMulLeft(a, b, p);
      assert (r * b) % p == 0;
      var k := (r * b) / p;
      ModZeroMultiple(r * b, p);
      calc {
        b;
        b * (r * x + p * y);
        (r * b) * x + (b * y) * p;
        (k * p) * x + (b * y) * p;
        (k * x + b * y) * p + 0;
      }
      ModUnique(b, k * x + b * y, 0, p);
      assert false;
    }
  }
}
