/** Integer polynomials as coefficient sequences: index `k` holds the
    coefficient of `x^k`, and every index outside the sequence reads as zero.
    This is the algebra in which the coefficient-level claims about the
    library's polynomials are stated and proved; the library itself stores
    field elements, whose values are these integers. */
module PolyMath {
  import opened ModArith

  /** The coefficient of `x^k`, zero past either end. */
  function Coef(s: seq<int>, k: int): int
  {
    if 0 <= k < |s| then s[k] else 0
  }

  function Pow(x: int, n: nat): int
  {
    if n == 0 then 1 else x * Pow(x, n - 1)
  }

  lemma {:induction false} PowAdd(x: int, a: nat, b: nat)
    ensures Pow(x, a + b) == Pow(x, a) * Pow(x, b)
    decreases a
  {
    if a > 0 {
      PowAdd(x, a - 1, b);
      assert x * (Pow(x, a - 1) * Pow(x, b)) == (x * Pow(x, a - 1)) * Pow(x, b);
    }
  }

  /** The first `n` terms of the series: the sum of `Coef(s, k) * x^k` for `k < n`. */
  function EvN(s: seq<int>, n: nat, x: int): int
  {
    if n == 0 then 0 else EvN(s, n - 1, x) + Coef(s, n - 1) * Pow(x, n - 1)
  }

  /** The value of the polynomial at `x`, over the integers. */
  function Ev(s: seq<int>, x: int): int
  {
    EvN(s, |s|, x)
  }

  /** Congruence of two polynomials modulo `m`, coefficient by coefficient. */
  ghost predicate Congruent(u: seq<int>, v: seq<int>, m: int)
  {
    m > 0 && forall k: nat :: Coef(u, k) % m == Coef(v, k) % m
  }

  // ---------------------------------------------------------------------------
  // Partial sums

  lemma {:induction false} EvNExt(s: seq<int>, t: seq<int>, n: nat, x: int)
    requires forall k :: 0 <= k < n ==> Coef(s, k) == Coef(t, k)
    ensures EvN(s, n, x) == EvN(t, n, x)
  {
    if n > 0 {
      EvNExt(s, t, n - 1, x);
    }
  }

  /** Terms whose coefficient is zero add nothing. */
  lemma {:induction false} EvNZeroTail(s: seq<int>, n1: nat, n2: nat, x: int)
    requires n1 <= n2
    requires forall k :: n1 <= k < n2 ==> Coef(s, k) == 0
    ensures EvN(s, n2, x) == EvN(s, n1, x)
    decreases n2
  {
    if n1 < n2 {
      EvNZeroTail(s, n1, n2 - 1, x);
    }
  }

  lemma {:induction false} EvNFull(s: seq<int>, n: nat, x: int)
    requires |s| <= n
    ensures EvN(s, n, x) == Ev(s, x)
  {
    EvNZeroTail(s, |s|, n, x);
  }

  /** The series is linear in the coefficients. */
  lemma {:induction false} EvNLinear(s: seq<int>, u: seq<int>, v: seq<int>, c: int, n: nat, x: int)
    requires forall k :: 0 <= k < n ==> Coef(s, k) == Coef(u, k) + c * Coef(v, k)
    ensures EvN(s, n, x) == EvN(u, n, x) + c * EvN(v, n, x)
  {
    if n > 0 {
      EvNLinear(s, u, v, c, n - 1, x);
      var p := Pow(x, n - 1);
      assert Coef(s, n - 1) * p == Coef(u, n - 1) * p + c * (Coef(v, n - 1) * p);
      assert c * EvN(v, n, x) == c * EvN(v, n - 1, x) + c * (Coef(v, n - 1) * p);
    }
  }

  /** Congruent coefficients give congruent values. */
  lemma {:induction false} EvNCongruent(s: seq<int>, t: seq<int>, n: nat, x: int, m: int)
    requires m > 0
    requires forall k :: 0 <= k < n ==> Coef(s, k) % m == Coef(t, k) % m
    ensures EvN(s, n, x) % m == EvN(t, n, x) % m
  {
    if n > 0 {
      EvNCongruent(s, t, n - 1, x, m);
      var p := Pow(x, n - 1);
      CongMul(Coef(s, n - 1), Coef(t, n - 1), p, p, m);
      CongAdd(EvN(s, n - 1, x), EvN(t, n - 1, x), Coef(s, n - 1) * p, Coef(t, n - 1) * p, m);
    }
  }

  lemma {:induction false} EvCongruent(s: seq<int>, t: seq<int>, x: int, m: int)
    requires m > 0 && Congruent(s, t, m)
    ensures Ev(s, x) % m == Ev(t, x) % m
  {
    var n := if |s| < |t| then |t| else |s|;
    EvNFull(s, n, x);
    EvNFull(t, n, x);
    EvNCongruent(s, t, n, x, m);
  }

  /** Shifting the coefficients up by `h` places multiplies the value by `x^h`. */
  lemma {:induction false} EvNShift(t: seq<int>, b: seq<int>, h: nat, n: nat, x: int)
    requires forall k :: 0 <= k < n ==> Coef(t, k) == Coef(b, k - h)
    ensures EvN(t, n, x) == Pow(x, h) * EvN(b, if n >= h then n - h else 0, x)
  {
    if n > 0 {
      EvNShift(t, b, h, n - 1, x);
      if n - 1 >= h {
        var j: nat := n - 1 - h;
        PowAdd(x, h, j);
        assert Pow(x, n - 1) == Pow(x, h) * Pow(x, j);
        assert Coef(t, n - 1) == Coef(b, j);
        ShiftStep(Pow(x, h), EvN(b, j, x), Coef(b, j), Pow(x, j));
      } else {
        assert Coef(t, n - 1) == 0;
      }
    }
  }

  /** The arithmetic of one step of `EvNShift`. */
  lemma {:induction false} ShiftStep(P: int, E: int, c: int, Q: int)
    ensures P * E + c * (P * Q) == P * (E + c * Q)
  {
    assert c * (P * Q) == P * (c * Q);
  }

  // ---------------------------------------------------------------------------
  // Horner's rule

  /** Horner's scheme from index `i` up to `d`: `Coef(s, i) + x * (Coef(s, i+1) + x * (...))`. */
  function HornerFrom(s: seq<int>, i: nat, d: int, x: int): int
    decreases d + 1 - i
  {
    if i > d then 0 else Coef(s, i) + x * HornerFrom(s, i + 1, d, x)
  }

  lemma {:induction false} HornerSplit(s: seq<int>, i: nat, d: int, x: int)
    requires i <= d + 1
    ensures Pow(x, i) * HornerFrom(s, i, d, x) + EvN(s, i, x) == EvN(s, d + 1, x)
    decreases d + 1 - i
  {
    if i <= d {
      HornerSplit(s, i + 1, d, x);
      var p, h := Pow(x, i), HornerFrom(s, i + 1, d, x);
      assert p * (Coef(s, i) + x * h) == Coef(s, i) * p + (x * p) * h;
    }
  }

  /** Horner's scheme over the indices `0..d` evaluates the polynomial truncated after `d`. */
  lemma {:induction false} HornerEv(s: seq<int>, d: int, x: int)
    requires d >= -1
    ensures HornerFrom(s, 0, d, x) == EvN(s, d + 1, x)
  {
    HornerSplit(s, 0, d, x);
  }

  // ---------------------------------------------------------------------------
  // Products: the coefficient of x^k in a * b is the sum over i of a_i * b_(k-i)

  /** The contribution of rows `lo..hi-1` of `a` to the coefficient of `x^k` in `a * b`. */
  function RowSum(a: seq<int>, b: seq<int>, lo: int, hi: int, k: int): int
    decreases hi - lo
  {
    if hi <= lo then 0 else RowSum(a, b, lo, hi - 1, k) + Coef(a, hi - 1) * Coef(b, k - (hi - 1))
  }

  lemma {:induction false} RowSumLow(a: seq<int>, b: seq<int>, lo: int, hi: int, k: int)
    requires lo < hi
    ensures RowSum(a, b, lo, hi, k) == Coef(a, lo) * Coef(b, k - lo) + RowSum(a, b, lo + 1, hi, k)
    decreases hi - lo
  {
    if lo + 1 < hi {
      RowSumLow(a, b, lo, hi - 1, k);
    }
  }

  lemma {:induction false} RowSumExt(a: seq<int>, a': seq<int>, b: seq<int>, lo: int, hi: int, k: int)
    requires forall i :: lo <= i < hi ==> Coef(a, i) == Coef(a', i)
    ensures RowSum(a, b, lo, hi, k) == RowSum(a', b, lo, hi, k)
    decreases hi - lo
  {
    if lo < hi {
      RowSumExt(a, a', b, lo, hi - 1, k);
    }
  }

  /** Rows whose coefficient is zero contribute nothing. */
  lemma {:induction false} RowSumZeroTail(a: seq<int>, b: seq<int>, lo: int, h1: int, h2: int, k: int)
    requires lo <= h1 <= h2
    requires forall i :: h1 <= i < h2 ==> Coef(a, i) == 0
    ensures RowSum(a, b, lo, h2, k) == RowSum(a, b, lo, h1, k)
    decreases h2 - h1
  {
    if h1 < h2 {
      RowSumZeroTail(a, b, lo, h1, h2 - 1, k);
    }
  }

  /** A sum all of whose terms vanish is zero. */
  lemma {:induction false} RowSumVanishes(a: seq<int>, b: seq<int>, lo: int, hi: int, k: int)
    requires forall i :: lo <= i < hi ==> Coef(a, i) == 0 || Coef(b, k - i) == 0
    ensures RowSum(a, b, lo, hi, k) == 0
    decreases hi - lo
  {
    if lo < hi {
      RowSumVanishes(a, b, lo, hi - 1, k);
    }
  }

  /** Changing one row changes the sum by that row's change. */
  lemma {:induction false} RowSumUpdate(a: seq<int>, a': seq<int>, b: seq<int>, lo: int, hi: int, j: int, k: int)
    requires lo <= j < hi
    requires forall i :: lo <= i < hi && i != j ==> Coef(a, i) == Coef(a', i)
    ensures RowSum(a', b, lo, hi, k) == RowSum(a, b, lo, hi, k) + (Coef(a', j) - Coef(a, j)) * Coef(b, k - j)
    decreases hi - lo
  {
    if j < hi - 1 {
      RowSumUpdate(a, a', b, lo, hi - 1, j, k);
    } else {
      RowSumExt(a, a', b, lo, hi - 1, k);
    }
  }

  /** Multiplying by a polynomial of degree at most one, `t0 + t1*x`, mixes two neighbouring rows. */
  lemma {:induction false} RowSumByLinear(w: seq<int>, t0: int, t1: int, hi: int, k: int)
    requires 0 <= hi
    ensures RowSum(w, [t0, t1], 0, hi, k)
         == (if 0 <= k < hi then Coef(w, k) * t0 else 0) + (if 0 <= k - 1 < hi then Coef(w, k - 1) * t1 else 0)
  {
    if hi > 0 {
      RowSumByLinear(w, t0, t1, hi - 1, k);
    }
  }

  /** Conv(a, b) is the product polynomial, of length |a| + |b| - 1. */
  function ConvLen(a: seq<int>, b: seq<int>): nat
  {
    if |a| == 0 || |b| == 0 then 0 else |a| + |b| - 1
  }

  function Conv(a: seq<int>, b: seq<int>): seq<int>
  {
    seq(ConvLen(a, b), k => RowSum(a, b, 0, |a|, k))
  }

  /** Every coefficient of the product, in range or not, is its convolution sum. */
  lemma {:induction false} ConvCoef(a: seq<int>, b: seq<int>, k: int)
    requires k >= 0
    ensures Coef(Conv(a, b), k) == RowSum(a, b, 0, |a|, k)
  {
    if k >= ConvLen(a, b) {
      forall i | 0 <= i < |a|
        ensures Coef(a, i) == 0 || Coef(b, k - i) == 0
      {
      }
      RowSumVanishes(a, b, 0, |a|, k);
    }
  }

  lemma {:induction false} EvConvRows(a: seq<int>, b: seq<int>, hi: nat, L: nat, x: int)
    requires hi + |b| <= L + 1
    ensures EvN(seq(L, k => RowSum(a, b, 0, hi, k)), L, x) == EvN(a, hi, x) * Ev(b, x)
  {
    var t := seq(L, k => RowSum(a, b, 0, hi, k));
    if hi == 0 {
      EvNZeroTail(t, 0, L, x);
    } else {
      var h := hi - 1;
      EvConvRows(a, b, h, L, x);
      var t' := seq(L, k => RowSum(a, b, 0, h, k));
      var sh := seq(L, k => Coef(b, k - h));
      forall k | 0 <= k < L
        ensures Coef(t, k) == Coef(t', k) + Coef(a, h) * Coef(sh, k)
      {
      }
      EvNLinear(t, t', sh, Coef(a, h), L, x);
      EvNShift(sh, b, h, L, x);
      EvNFull(b, L - h, x);
      RowStep(EvN(t, L, x), EvN(t', L, x), EvN(sh, L, x), EvN(a, h, x), Coef(a, h), Pow(x, h), Ev(b, x));
    }
  }

  /** The arithmetic of one step of EvConvRows. */
  lemma {:induction false} RowStep(t: int, t': int, sh: int, ah: int, c: int, p: int, e: int)
    requires t == t' + c * sh && sh == p * e && t' == ah * e
    ensures t == (ah + c * p) * e
  {
  }

  /** Evaluation is multiplicative: the product polynomial evaluates to the product of values. */
  lemma {:induction false} EvConv(a: seq<int>, b: seq<int>, x: int)
    ensures Ev(Conv(a, b), x) == Ev(a, x) * Ev(b, x)
  {
    if |a| == 0 || |b| == 0 {
    } else {
      var L := ConvLen(a, b);
      EvConvRows(a, b, |a|, L, x);
      assert Conv(a, b) == seq(L, k => RowSum(a, b, 0, |a|, k));
    }
  }

  /** If `A ≡ Q * D + R` coefficient-wise modulo `m`, then also at every point. */
  lemma {:induction false} EvProductSum(A: seq<int>, Q: seq<int>, D: seq<int>, R: seq<int>, m: int, x: int)
    requires Decomposes(A, D, Q, R, m)
    ensures Ev(A, x) % m == (Ev(Q, x) * Ev(D, x) + Ev(R, x)) % m
  {
    var C := Conv(Q, D);
    var n := |A| + |C| + |R|;
    var S := SumSeq(C, R, n);
    SumSeqCongruent(A, Q, D, R, m, n);
    calc {
      Ev(A, x) % m;
      { EvNFull(A, n, x); }
      EvN(A, n, x) % m;
      { EvNCongruent(A, S, n, x, m); }
      EvN(S, n, x) % m;
      { EvNLinear(S, C, R, 1, n, x); EvNFull(C, n, x); EvNFull(R, n, x); }
      (Ev(C, x) + 1 * Ev(R, x)) % m;
      { EvConv(Q, D, x); }
      (Ev(Q, x) * Ev(D, x) + Ev(R, x)) % m;
    }
  }

  /** If every coefficient of `r` is congruent to that of `a + c * b`, so is the value at any point. */
  lemma {:induction false} EvLinearCongruent(r: seq<int>, a: seq<int>, b: seq<int>, c: int, m: int, x: int)
    requires m > 0
    requires forall k: nat :: Coef(r, k) % m == (Coef(a, k) + c * Coef(b, k)) % m
    ensures Ev(r, x) % m == (Ev(a, x) + c * Ev(b, x)) % m
  {
    var n := |r| + |a| + |b|;
    var S := seq(n, k => Coef(a, k) + c * Coef(b, k));
    forall k | 0 <= k < n
      ensures Coef(S, k) == Coef(a, k) + c * Coef(b, k)
      ensures Coef(r, k) % m == Coef(S, k) % m
    {
    }
    EvNLinear(S, a, b, c, n, x);
    EvNCongruent(r, S, n, x, m);
    EvNFull(r, n, x);
    EvNFull(a, n, x);
    EvNFull(b, n, x);
  }

  /** The first `n` coefficients of `C + R`. */
  function SumSeq(C: seq<int>, R: seq<int>, n: nat): (S: seq<int>)
    ensures |S| == n
    ensures forall k :: 0 <= k < n ==> Coef(S, k) == Coef(C, k) + 1 * Coef(R, k)
  {
    seq(n, k => Coef(C, k) + Coef(R, k))
  }

  lemma {:induction false} SumSeqCongruent(A: seq<int>, Q: seq<int>, D: seq<int>, R: seq<int>, m: int, n: nat)
    requires Decomposes(A, D, Q, R, m)
    ensures forall k :: 0 <= k < n ==> Coef(A, k) % m == Coef(SumSeq(Conv(Q, D), R, n), k) % m
  {
    forall k | 0 <= k < n
      ensures Coef(A, k) % m == Coef(SumSeq(Conv(Q, D), R, n), k) % m
    {
      ConvCoef(Q, D, k);
    }
  }

  // ---------------------------------------------------------------------------
  // Uniqueness of division by a polynomial with an invertible top coefficient

  /** When every row but `e` contributes a multiple of `m`, the sum is row
      `e`'s term modulo `m` (zero when `e` is outside the rows). */
  lemma {:induction false} RowSumSingleMod(a: seq<int>, b: seq<int>, lo: int, hi: int, k: int, e: int, m: int)
    requires m > 0
    requires forall i :: lo <= i < hi && i != e ==> (Coef(a, i) * Coef(b, k - i)) % m == 0
    ensures RowSum(a, b, lo, hi, k) % m == (if lo <= e < hi then Coef(a, e) * Coef(b, k - e) else 0) % m
    decreases hi - lo
  {
    if lo < hi {
      RowSumSingleMod(a, b, lo, hi - 1, k, e, m);
      var s, t := RowSum(a, b, lo, hi - 1, k), Coef(a, hi - 1) * Coef(b, k - (hi - 1));
      var prev := if lo <= e < hi - 1 then Coef(a, e) * Coef(b, k - e) else 0;
      if e == hi - 1 {
        CongAdd(s, 0, t, t, m);
      } else {
        CongAdd(s, prev, t, 0, m);
      }
    }
  }

  /** The row sum is linear in the rows. */
  lemma {:induction false} RowSumDifference(e: seq<int>, u: seq<int>, v: seq<int>, b: seq<int>, lo: int, hi: int, k: int)
    requires forall i :: lo <= i < hi ==> Coef(e, i) == Coef(u, i) - Coef(v, i)
    ensures RowSum(e, b, lo, hi, k) == RowSum(u, b, lo, hi, k) - RowSum(v, b, lo, hi, k)
    decreases hi - lo
  {
    if lo < hi {
      RowSumDifference(e, u, v, b, lo, hi - 1, k);
      var c := Coef(b, k - (hi - 1));
      assert (Coef(u, hi - 1) - Coef(v, hi - 1)) * c == Coef(u, hi - 1) * c - Coef(v, hi - 1) * c;
    }
  }

  /** The difference `e` of two quotients, whose product with `D` vanishes
      modulo `m` from index `dm` up, vanishes modulo `m` from the top down to
      index 0, one coefficient per step. */
  lemma {:induction false} VanishFromTop(e: seq<int>, D: seq<int>, dm: nat, inv: int, m: int, top: int)
    requires m > 0 && (Coef(D, dm) * inv) % m == 1
    requires forall k: nat :: k > dm ==> Coef(D, k) == 0
    requires forall k: nat :: k >= dm ==> RowSum(e, D, 0, |e|, k) % m == 0
    requires -1 <= top < |e|
    requires forall i :: top < i < |e| ==> Coef(e, i) % m == 0
    ensures forall i :: 0 <= i < |e| ==> Coef(e, i) % m == 0
    decreases top + 1
  {
    if top >= 0 {
      var k: nat := top + dm;
      forall i | 0 <= i < |e| && i != top
        ensures (Coef(e, i) * Coef(D, k - i)) % m == 0
      {
        var c := Coef(D, k - i);
        if i < top {
          var j: nat := k - i;
          assert c == 0;
        } else {
          CongMul(Coef(e, i), 0, c, c, m);
        }
      }
      RowSumSingleMod(e, D, 0, |e|, k, top, m);
      assert (Coef(e, top) * Coef(D, dm)) % m == 0;
      UnitCancel(Coef(e, top), Coef(D, dm), inv, m);
      VanishFromTop(e, D, dm, inv, m, top - 1);
    }
  }

  lemma {:induction false} DifferenceStep(s1: int, r1: int, s2: int, r2: int, m: int)
    requires m > 0 && (s1 + r1) % m == (s2 + r2) % m && r1 % m == 0 && r2 % m == 0
    ensures (s1 - s2) % m == 0
  {
    ModAddRight(s1, r1, m);
    ModAddRight(s2, r2, m);
    ModSubCongruentBack(s1, s2, m);
  }

  lemma {:induction false} ModSubCongruentBack(x: int, c: int, p: int)
    requires p > 0 && (x + 0) % p == (c + 0) % p
    ensures (x - c) % p == 0
  {
    ModSubRight(x, c, p);
    ModSubRight(x, x, p);
  }

  lemma {:induction false} RemainderStep(s1: int, r1: int, s2: int, r2: int, m: int)
    requires m > 0 && (s1 + r1) % m == (s2 + r2) % m && (s1 - s2) % m == 0
    ensures r1 % m == r2 % m
  {
    ModSubCongruent(s1, s2, m);
    CongSub(s1 + r1, s2 + r2, s1, s2, m);
    assert s1 + r1 - s1 == r1 && s2 + r2 - s2 == r2;
  }

  /** The first `n` coefficients of `F - G`. */
  function Difference(F: seq<int>, G: seq<int>, n: nat): (d: seq<int>)
    ensures |d| == n && forall k :: 0 <= k < n ==> Coef(d, k) == Coef(F, k) + (-1) * Coef(G, k)
  {
    seq(n, k => Coef(F, k) - Coef(G, k))
  }

  /** The rows of `Q1 - Q2` sum to the difference of the row sums. */
  lemma {:induction false} DifferenceRowSum(Q1: seq<int>, Q2: seq<int>, D: seq<int>, n: nat, k: int)
    requires |Q1| <= n && |Q2| <= n
    ensures RowSum(Difference(Q1, Q2, n), D, 0, n, k) == RowSum(Q1, D, 0, |Q1|, k) - RowSum(Q2, D, 0, |Q2|, k)
  {
    RowSumZeroTail(Q1, D, 0, |Q1|, n, k);
    RowSumZeroTail(Q2, D, 0, |Q2|, n, k);
    RowSumDifference(Difference(Q1, Q2, n), Q1, Q2, D, 0, n, k);
  }

  /** Remainders congruent to zero above `dm` leave the product of `D` with the
      difference of the quotients vanishing there. */
  lemma {:induction false} DifferenceProductVanishes(A: seq<int>, D: seq<int>, dm: nat,
                                  Q1: seq<int>, R1: seq<int>, Q2: seq<int>, R2: seq<int>, e: seq<int>, m: int)
    requires m > 0 && e == Difference(Q1, Q2, |Q1| + |Q2|)
    requires forall k: nat :: Coef(A, k) % m == (RowSum(Q1, D, 0, |Q1|, k) + Coef(R1, k)) % m
    requires forall k: nat :: Coef(A, k) % m == (RowSum(Q2, D, 0, |Q2|, k) + Coef(R2, k)) % m
    requires forall k: nat :: k >= dm ==> Coef(R1, k) % m == 0 && Coef(R2, k) % m == 0
    ensures forall k: nat :: k >= dm ==> RowSum(e, D, 0, |e|, k) % m == 0
  {
    var n := |Q1| + |Q2|;
    forall k: nat | k >= dm
      ensures RowSum(e, D, 0, n, k) % m == 0
    {
      DifferenceRowSum(Q1, Q2, D, n, k);
      DifferenceStep(RowSum(Q1, D, 0, |Q1|, k), Coef(R1, k), RowSum(Q2, D, 0, |Q2|, k), Coef(R2, k), m);
    }
  }

  /** Once the quotients agree modulo `m`, so do the remainders. */
  lemma {:induction false} RemaindersCongruent(A: seq<int>, D: seq<int>, Q1: seq<int>, R1: seq<int>, Q2: seq<int>, R2: seq<int>,
                            e: seq<int>, m: int)
    requires m > 0 && e == Difference(Q1, Q2, |Q1| + |Q2|)
    requires forall k: nat :: Coef(A, k) % m == (RowSum(Q1, D, 0, |Q1|, k) + Coef(R1, k)) % m
    requires forall k: nat :: Coef(A, k) % m == (RowSum(Q2, D, 0, |Q2|, k) + Coef(R2, k)) % m
    requires forall i :: 0 <= i < |e| ==> Coef(e, i) % m == 0
    ensures forall k: nat :: Coef(R1, k) % m == Coef(R2, k) % m
  {
    forall k: nat
      ensures Coef(R1, k) % m == Coef(R2, k) % m
    {
      RemainderCongruentAt(A, D, Q1, R1, Q2, R2, e, m, k);
    }
  }

  /** `RemaindersCongruent` at one coefficient `k`. */
  lemma {:induction false} RemainderCongruentAt(A: seq<int>, D: seq<int>, Q1: seq<int>, R1: seq<int>, Q2: seq<int>, R2: seq<int>,
                            e: seq<int>, m: int, k: nat)
    requires m > 0 && e == Difference(Q1, Q2, |Q1| + |Q2|)
    requires Coef(A, k) % m == (RowSum(Q1, D, 0, |Q1|, k) + Coef(R1, k)) % m
    requires Coef(A, k) % m == (RowSum(Q2, D, 0, |Q2|, k) + Coef(R2, k)) % m
    requires forall i :: 0 <= i < |e| ==> Coef(e, i) % m == 0
    ensures Coef(R1, k) % m == Coef(R2, k) % m
  {
    var n := |e|;
    forall i | 0 <= i < n
      ensures (Coef(e, i) * Coef(D, k - i)) % m == 0
    {
      CongMul(Coef(e, i), 0, Coef(D, k - i), Coef(D, k - i), m);
    }
    RowSumSingleMod(e, D, 0, n, k, -1, m);
    DifferenceRowSum(Q1, Q2, D, n, k);
    RemainderStep(RowSum(Q1, D, 0, |Q1|, k), Coef(R1, k), RowSum(Q2, D, 0, |Q2|, k), Coef(R2, k), m);
  }

  /** Quotients whose difference times `D` vanishes modulo `m` from index
      `dm` up are congruent. */
  lemma {:induction false} QuotientsCongruent(D: seq<int>, dm: nat, inv: int, Q1: seq<int>, Q2: seq<int>, e: seq<int>, m: int)
    requires m > 0 && (Coef(D, dm) * inv) % m == 1
    requires forall k: nat :: k > dm ==> Coef(D, k) == 0
    requires e == Difference(Q1, Q2, |Q1| + |Q2|)
    requires forall k: nat :: k >= dm ==> RowSum(e, D, 0, |e|, k) % m == 0
    ensures forall i :: 0 <= i < |e| ==> Coef(e, i) % m == 0
    ensures forall k: nat :: Coef(Q1, k) % m == Coef(Q2, k) % m
  {
    VanishFromTop(e, D, dm, inv, m, |e| - 1);
    forall k: nat
      ensures Coef(Q1, k) % m == Coef(Q2, k) % m
    {
      if k < |e| {
        assert Coef(e, k) == Coef(Q1, k) - Coef(Q2, k);
        ModSubCongruent(Coef(Q1, k), Coef(Q2, k), m);
      }
    }
  }

  /** `A == Q * D + R`, coefficient by coefficient modulo `m`. */
  ghost predicate Decomposes(A: seq<int>, D: seq<int>, Q: seq<int>, R: seq<int>, m: int)
  {
    m > 0 && forall k: nat :: Coef(A, k) % m == (RowSum(Q, D, 0, |Q|, k) + Coef(R, k)) % m
  }

  /** Every coefficient from index `dm` up is a multiple of `m`. */
  ghost predicate VanishesFrom(R: seq<int>, dm: nat, m: int)
  {
    m > 0 && forall k: nat :: k >= dm ==> Coef(R, k) % m == 0
  }

  /** Division by `D`, whose coefficient `dm` is its top one and has the
      inverse `inv` modulo `m`, is unique: two decompositions `A == Q * D + R`
      modulo `m` whose remainders vanish from index `dm` up have congruent
      quotients and congruent remainders. */
  lemma {:induction false} DivisionUnique(A: seq<int>, D: seq<int>, dm: nat, inv: int,
                       Q1: seq<int>, R1: seq<int>, Q2: seq<int>, R2: seq<int>, m: int)
    requires m > 0 && (Coef(D, dm) * inv) % m == 1
    requires forall k: nat :: k > dm ==> Coef(D, k) == 0
    requires Decomposes(A, D, Q1, R1, m) && Decomposes(A, D, Q2, R2, m)
    requires VanishesFrom(R1, dm, m) && VanishesFrom(R2, dm, m)
    ensures forall k: nat :: Coef(Q1, k) % m == Coef(Q2, k) % m
    ensures forall k: nat :: Coef(R1, k) % m == Coef(R2, k) % m
  {
    var e := Difference(Q1, Q2, |Q1| + |Q2|);
    DifferenceProductVanishes(A, D, dm, Q1, R1, Q2, R2, e, m);
    QuotientsCongruent(D, dm, inv, Q1, Q2, e, m);
    RemaindersCongruent(A, D, Q1, R1, Q2, R2, e, m);
  }

  // ---------------------------------------------------------------------------
  // Multiplying by the linear factor (x - c)

  /** The coefficients of `(x - c) * w`. */
  function LinMul(c: int, w: seq<int>): seq<int>
  {
    seq(|w| + 1, k => Coef(w, k - 1) - c * Coef(w, k))
  }

  lemma {:induction false} LinMulCoef(c: int, w: seq<int>, k: int)
    ensures Coef(LinMul(c, w), k) == Coef(w, k - 1) - c * Coef(w, k)
  {
  }

  lemma {:induction false} LinMulEv(c: int, w: seq<int>, x: int)
    ensures Ev(LinMul(c, w), x) == (x - c) * Ev(w, x)
  {
    var t := LinMul(c, w);
    var n := |w| + 1;
    var sh := seq(n, k => Coef(w, k - 1));
    forall k | 0 <= k < n
      ensures Coef(t, k) == Coef(sh, k) + (-c) * Coef(w, k)
    {
    }
    EvNLinear(t, sh, w, -c, n, x);
    EvNShift(sh, w, 1, n, x);
    EvNFull(w, n, x);
    EvNFull(w, n - 1, x);
    assert Pow(x, 1) == x;
    LinStep(EvN(t, n, x), EvN(sh, n, x), Ev(w, x), c, x);
  }

  lemma {:induction false} LinStep(t: int, sh: int, e: int, c: int, x: int)
    requires t == sh + (-c) * e && sh == x * e
    ensures t == (x - c) * e
  {
  }

  /** Multiplying by two linear factors does not depend on their order. */
  lemma {:induction false} LinMulCommute(c: int, d: int, w: seq<int>)
    ensures LinMul(c, LinMul(d, w)) == LinMul(d, LinMul(c, w))
  {
    var u, v := LinMul(c, LinMul(d, w)), LinMul(d, LinMul(c, w));
    forall k | 0 <= k < |u|
      ensures u[k] == v[k]
    {
      LinMulCoef(d, w, k - 1);
      LinMulCoef(d, w, k);
      LinMulCoef(c, w, k - 1);
      LinMulCoef(c, w, k);
      CommuteStep(Coef(w, k - 2), Coef(w, k - 1), Coef(w, k), c, d);
    }
  }

  lemma {:induction false} CommuteStep(w2: int, w1: int, w0: int, c: int, d: int)
    ensures (w2 - d * w1) - c * (w1 - d * w0) == (w2 - c * w1) - d * (w1 - c * w0)
  {
  }

  lemma {:induction false} LinMulCongruent(c: int, u: seq<int>, v: seq<int>, m: int)
    requires m > 0 && Congruent(u, v, m)
    ensures Congruent(LinMul(c, u), LinMul(c, v), m)
  {
    forall k: nat
      ensures Coef(LinMul(c, u), k) % m == Coef(LinMul(c, v), k) % m
    {
      LinMulCoef(c, u, k);
      LinMulCoef(c, v, k);
      CongMul(c, c, Coef(u, k), Coef(v, k), m);
      CongSub(Coef(u, k - 1), Coef(v, k - 1), c * Coef(u, k), c * Coef(v, k), m);
    }
  }

  lemma {:induction false} LinMulCancelFrom(c: int, u: seq<int>, v: seq<int>, m: int, j: nat)
    requires m > 0 && Congruent(LinMul(c, u), LinMul(c, v), m)
    ensures forall k: nat :: j <= k ==> Coef(u, k) % m == Coef(v, k) % m
    decreases |u| + |v| - j
  {
    if j < |u| + |v| {
      LinMulCancelFrom(c, u, v, m, j + 1);
      LinMulCoef(c, u, j + 1);
      LinMulCoef(c, v, j + 1);
      // Coef(u, j) == LinMul(c, u)[j + 1] + c * Coef(u, j + 1)
      assert Coef(LinMul(c, u), j + 1) % m == Coef(LinMul(c, v), j + 1) % m;
      CongMul(c, c, Coef(u, j + 1), Coef(v, j + 1), m);
      CongAdd(Coef(LinMul(c, u), j + 1), Coef(LinMul(c, v), j + 1), c * Coef(u, j + 1), c * Coef(v, j + 1), m);
    }
  }

  /** `(x - c)` can be cancelled: there are no zero divisors among monic linear factors. */
  lemma {:induction false} LinMulCancel(c: int, u: seq<int>, v: seq<int>, m: int)
    requires m > 0 && Congruent(LinMul(c, u), LinMul(c, v), m)
    ensures Congruent(u, v, m)
  {
    LinMulCancelFrom(c, u, v, m, 0);
  }

  // ---------------------------------------------------------------------------
  // Products of linear factors

  /** The coefficients of `(x - ys[0]) * ... * (x - ys[n-1])`. */
  function LinProd(ys: seq<int>): (r: seq<int>)
    ensures |r| == |ys| + 1
  {
    if |ys| == 0 then [1] else LinMul(ys[|ys| - 1], LinProd(ys[..|ys| - 1]))
  }

  /** The product of linear factors is monic: its top coefficient is one. */
  lemma {:induction false} LinProdMonic(ys: seq<int>)
    ensures Coef(LinProd(ys), |ys|) == 1
  {
    if |ys| > 0 {
      var init := ys[..|ys| - 1];
      LinProdMonic(init);
      LinMulCoef(ys[|ys| - 1], LinProd(init), |ys|);
    }
  }

  /** The value `(x - ys[0]) * ... * (x - ys[n-1])`. */
  function ProdDiff(ys: seq<int>, x: int): int
  {
    if |ys| == 0 then 1 else ProdDiff(ys[..|ys| - 1], x) * (x - ys[|ys| - 1])
  }

  function RemoveAt(ys: seq<int>, i: nat): (r: seq<int>)
    requires i < |ys|
    ensures |r| == |ys| - 1
  {
    ys[..i] + ys[i + 1..]
  }

  lemma {:induction false} EvLinProd(ys: seq<int>, x: int)
    ensures Ev(LinProd(ys), x) == ProdDiff(ys, x)
  {
    if |ys| > 0 {
      var c := ys[|ys| - 1];
      var init := ys[..|ys| - 1];
      EvLinProd(init, x);
      LinMulEv(c, LinProd(init), x);
      assert LinProd(ys) == LinMul(c, LinProd(init));
      assert ProdDiff(ys, x) == ProdDiff(init, x) * (x - c);
      assert (x - c) * ProdDiff(init, x) == ProdDiff(init, x) * (x - c);
    } else {
      assert EvN([1], 0, x) == 0 && Pow(x, 0) == 1;
    }
  }

  /** A product of differences vanishes at each of its roots. */
  lemma {:induction false} ProdDiffRoot(ys: seq<int>, j: nat)
    requires j < |ys|
    ensures ProdDiff(ys, ys[j]) == 0
  {
    if j < |ys| - 1 {
      ProdDiffRoot(ys[..|ys| - 1], j);
    }
  }

  /** The linear factor of any one point can be taken out first. */
  lemma {:induction false} LinProdFactor(ys: seq<int>, i: nat)
    requires i < |ys|
    ensures LinProd(ys) == LinMul(ys[i], LinProd(RemoveAt(ys, i)))
  {
    var n := |ys|;
    var init := ys[..n - 1];
    if i == n - 1 {
      assert RemoveAt(ys, i) == init;
    } else {
      var c := ys[n - 1];
      LinProdFactor(init, i);
      assert init[i] == ys[i];
      var rest := RemoveAt(init, i);
      assert RemoveAt(ys, i) == rest + [c];
      assert (rest + [c])[..|rest + [c]| - 1] == rest;
      LinMulCommute(c, ys[i], LinProd(rest));
    }
  }

  // ---------------------------------------------------------------------------
  // Counting roots modulo a prime

  /** Synthetic division by `(x - c)`: `d == (x - c) * w + r`, with `w` one shorter than `d`. */
  function SynDiv(d: seq<int>, c: int): (wr: (seq<int>, int))
    ensures |d| > 0 ==> |wr.0| == |d| - 1
    ensures |d| == 0 ==> wr.0 == []
  {
    if |d| <= 1 then ([], Coef(d, 0))
    else
      var (w', r') := SynDiv(d[1..], c);
      ([r'] + w', d[0] + c * r')
  }

  lemma {:induction false} SynDivCoef(d: seq<int>, c: int)
    ensures forall k: nat :: Coef(d, k) == Coef(LinMul(c, SynDiv(d, c).0), k) + Coef([SynDiv(d, c).1], k)
  {
    var (w, r) := SynDiv(d, c);
    if |d| > 1 {
      var d' := d[1..];
      var (w', r') := SynDiv(d', c);
      SynDivCoef(d', c);
      forall k: nat
        ensures Coef(d, k) == Coef(LinMul(c, w), k) + Coef([r], k)
      {
        LinMulCoef(c, w, k);
        if k >= 1 {
          LinMulCoef(c, w', k - 1);
          assert Coef(d, k) == Coef(d', k - 1);
          assert Coef(w, k) == Coef(w', k - 1);
          if k >= 2 {
            assert Coef(w, k - 1) == Coef(w', k - 2);
          }
        }
      }
    }
  }

  lemma {:induction false} SynDivEv(d: seq<int>, c: int, x: int)
    ensures Ev(d, x) == (x - c) * Ev(SynDiv(d, c).0, x) + SynDiv(d, c).1
  {
    var (w, r) := SynDiv(d, c);
    SynDivCoef(d, c);
    var n := |d| + |w| + 2;
    var L := LinMul(c, w);
    forall k | 0 <= k < n
      ensures Coef(d, k) == Coef(L, k) + 1 * Coef([r], k)
    {
    }
    EvNLinear(d, L, [r], 1, n, x);
    EvNFull(d, n, x);
    EvNFull(L, n, x);
    EvNFull([r], n, x);
    assert Ev([r], x) == r by {
      assert EvN([r], 0, x) == 0;
      assert Pow(x, 0) == 1;
    }
    LinMulEv(c, w, x);
  }

  /** Values pairwise distinct modulo `p`. */
  predicate DistinctMod(xs: seq<int>, p: int)
    requires p > 0
  {
    forall i, j :: 0 <= i < j < |xs| ==> xs[i] % p != xs[j] % p
  }

  /** Modulo a prime, a polynomial with at most `n` coefficients that
      vanishes at `n` points distinct modulo `p` has every coefficient
      divisible by `p`. */
  lemma {:induction false} RootsVanish(d: seq<int>, xs: seq<int>, p: int)
    requires IsPrime(p) && DistinctMod(xs, p) && |d| <= |xs|
    requires forall j :: 0 <= j < |xs| ==> Ev(d, xs[j]) % p == 0
    ensures forall k: nat :: Coef(d, k) % p == 0
    decreases |xs|
  {
    if |d| > 0 {
      var n := |xs|;
      var c := xs[n - 1];
      var xs' := xs[..n - 1];
      var (w, r) := SynDiv(d, c);
      SynDivEv(d, c, c);
      assert r % p == 0;
      forall j | 0 <= j < |xs'|
        ensures Ev(w, xs'[j]) % p == 0
      {
        var x := xs'[j];
        SynDivEv(d, c, x);
        RootFactor(x - c, Ev(w, x), r, p);
        assert xs[j] == x;
        if (x - c) % p == 0 {
          ModSubCongruent(x, c, p);
        }
      }
      RootsVanish(w, xs', p);
      SynDivCoef(d, c);
      forall k: nat
        ensures Coef(d, k) % p == 0
      {
        LinMulCoef(c, w, k);
        ZeroCombination(Coef(w, k - 1), Coef(w, k), c, Coef([r], k), p);
      }
    }
  }

  /** If `a * b + r ≡ 0` and `r ≡ 0` modulo a prime, then `a ≡ 0` or `b ≡ 0`. */
  lemma {:induction false} RootFactor(a: int, b: int, r: int, p: int)
    requires IsPrime(p) && (a * b + r) % p == 0 && r % p == 0
    ensures a % p == 0 || b % p == 0
  {
    ModAddRight(a * b, r, p);
    ModAddRight(a * b, 0, p);
    if a % p != 0 && b % p != 0 {
      PrimeProductNonzero(a, b, p);
    }
  }

  lemma {:induction false} ModSubCongruent(x: int, c: int, p: int)
    requires p > 0 && (x - c) % p == 0
    ensures x % p == c % p
  {
    ModMultiple(c, (x - c) / p, p);
    ModZeroMultiple(x - c, p);
  }

  lemma {:induction false} ZeroCombination(u: int, v: int, c: int, r: int, p: int)
    requires p > 0 && u % p == 0 && v % p == 0 && r % p == 0
    ensures (u - c * v + r) % p == 0
  {
    CongMul(c, c, v, 0, p);
    CongSub(u, 0, c * v, 0, p);
    CongAdd(u - c * v, 0, r, 0, p);
  }
}
