/**
 * Modular exponentiation and the coefficients of a polynomial given by its
 * roots (src/polynomials.cpp). The C++ code computes in `uint64_t`, so every
 * product and sum that can overflow is reduced modulo 2^64 here, as the
 * hardware does; the algebraic postconditions are stated for the moduli
 * (at most 2^32), and for `modexp` the bases (below 2^32), for which no
 * product overflows.
 */
module Polynomials {
  import opened Bits

  // ---------------------------------------------------------------------------
  // Integer powers and modular arithmetic
  // ---------------------------------------------------------------------------

  function Pow(b: int, e: nat): int
  {
    if e == 0 then 1 else b * Pow(b, e - 1)
  }

  lemma {:induction false} PowNonNegative(b: nat, e: nat)
    ensures Pow(b, e) >= 0
  {
    if e > 0 {
      PowNonNegative(b, e - 1);
    }
  }

  lemma {:induction false} PowAdd(b: int, e1: nat, e2: nat)
    ensures Pow(b, e1 + e2) == Pow(b, e1) * Pow(b, e2)
  {
    if e1 > 0 {
      PowAdd(b, e1 - 1, e2);
      calc {
        Pow(b, e1 + e2);
        b * Pow(b, e1 - 1 + e2);
        b * (Pow(b, e1 - 1) * Pow(b, e2));
        (b * Pow(b, e1 - 1)) * Pow(b, e2);
      }
    }
  }

  lemma {:induction false} PowMul(b: int, e1: nat, e2: nat)
    ensures e1 * e2 >= 0 && Pow(b, e1 * e2) == Pow(Pow(b, e1), e2)
  {
    if e2 > 0 {
      PowMul(b, e1, e2 - 1);
      assert e1 * e2 == e1 + e1 * (e2 - 1);
      PowAdd(b, e1, e1 * (e2 - 1));
    }
  }

  lemma SmallMod(x: int, m: int)
    requires 0 <= x < m
    ensures x % m == x
  {
    ModUnique(0, x, m);
  }

  lemma ModAddMultiple(q: int, x: int, m: int)
    requires m > 0
    ensures (m * q + x) % m == x % m
  {
    assert m * q + x == m * (q + x / m) + x % m;
    ModUnique(q + x / m, x % m, m);
  }

  lemma AddMod(a: int, b: int, m: int)
    requires m > 0
    ensures (a + b) % m == (a % m + b % m) % m
  {
    assert a + b == m * (a / m + b / m) + (a % m + b % m);
    ModAddMultiple(a / m + b / m, a % m + b % m, m);
  }

  lemma MulMod(a: int, b: int, m: int)
    requires m > 0
    ensures (a * b) % m == ((a % m) * (b % m)) % m
  {
    var qa, ra := a / m, a % m;
    var qb, rb := b / m, b % m;
    calc {
      a * b;
      (m * qa + ra) * (m * qb + rb);
      m * (qa * (m * qb + rb) + ra * qb) + ra * rb;
    }
    ModAddMultiple(qa * (m * qb + rb) + ra * qb, ra * rb, m);
  }

  lemma {:induction false} PowMod(b: int, e: nat, m: int)
    requires m > 0
    ensures Pow(b % m, e) % m == Pow(b, e) % m
  {
    if e > 0 {
      var r := b % m;
      var p, q := Pow(r, e - 1), Pow(b, e - 1);
      PowMod(b, e - 1, m);
      SmallMod(r, m);
      calc {
        Pow(r, e) % m;
        (r * p) % m;
        { MulCongruent(r, p, q, m); }
        (r * q) % m;
        { MulCongruentLeft(r, b, q, m); }
        (b * q) % m;
        Pow(b, e) % m;
      }
    }
  }

  lemma MulCongruentLeft(x: int, x': int, y: int, m: int)
    requires m > 0 && x % m == x' % m
    ensures (x * y) % m == (x' * y) % m
  {
    MulMod(x, y, m);
    MulMod(x', y, m);
  }

  /** Both factors below 2^32: the 64-bit product does not wrap. */
  lemma ProductFitsWord(a: nat, b: nat)
    requires a < TWO_32 && b < TWO_32
    ensures a * b < TWO_64
  {
    assert a * b <= a * TWO_32 <= TWO_32 * TWO_32;
    assert a * b < TWO_32 * TWO_32 by {
      if a == 0 {
      } else {
        assert a * b < a * TWO_32;
      }
    }
  }

  // ---------------------------------------------------------------------------
  // modexp
  // ---------------------------------------------------------------------------

  lemma MulCongruent(x: int, y: int, y': int, m: int)
    requires m > 0 && y % m == y' % m
    ensures (x * y) % m == (x * y') % m
  {
    MulMod(x, y, m);
    MulMod(x, y', m);
  }

  /** `Pow(b, e)` splits into the low bit of `e` and a power of `b * b`. */
  lemma PowSquareSplit(b: int, e: nat)
    ensures Pow(b, e) == Pow(b, e % 2) * Pow(b * b, e / 2)
  {
    var k := e / 2;
    PowMul(b, 2, k);
    assert Pow(b, 1) == b;
    assert Pow(b, 2) == b * b;
    assert e == e % 2 + 2 * k;
    PowAdd(b, e % 2, 2 * k);
  }

  /** One square-and-multiply step keeps `result * base^exponent` modulo m. */
  lemma ModExpStep(result: int, b: int, e: nat, m: int)
    requires m > 0 && e > 0
    ensures ((if e % 2 == 1 then (result * b) % m else result) * Pow((b * b) % m, e / 2)) % m
         == (result * Pow(b, e)) % m
  {
    var P := Pow(b * b, e / 2);
    PowMod(b * b, e / 2, m);
    PowSquareSplit(b, e);
    if e % 2 == 1 {
      OddStep(result, b, P, Pow((b * b) % m, e / 2), m);
    } else {
      MulCongruent(result, Pow((b * b) % m, e / 2), P, m);
    }
  }

  lemma OddStep(result: int, b: int, P: int, P': int, m: int)
    requires m > 0 && P' % m == P % m
    ensures (((result * b) % m) * P') % m == (result * (Pow(b, 1) * P)) % m
  {
    assert Pow(b, 1) == b;
    var x := result * b;
    var y := x % m;
    assert y % m == x % m by { ModUnique(0, y, m); }
    calc {
      (y * P') % m;
      { MulCongruent(y, P', P, m); }
      (y * P) % m;
      { assert y * P == P * y; }
      (P * y) % m;
      { MulCongruent(P, y, x, m); }
      (P * x) % m;
      { assert P * x == result * (b * P); }
      (result * (b * P)) % m;
    }
  }

  /** The loop body of `modexp` keeps its invariant when no 64-bit product wraps. */
  lemma ModExpLoopStep(result: nat, b: nat, e: nat, m: nat, target: int, r': nat, b': nat)
    requires 0 < m <= TWO_32 && e > 0 && b < TWO_32 && result < TWO_32
    requires (result * Pow(b, e)) % m == target
    requires r' == if e % 2 == 1 then (result * b) % TWO_64 % m else result
    requires b' == (b * b) % TWO_64 % m
    ensures r' < TWO_32 && b' < TWO_32 && (r' * Pow(b', e / 2)) % m == target
  {
    NoWrap(result, b);
    NoWrap(b, b);
    ModExpStep(result, b, e, m);
  }

  /** A product of two values below 2^32 is its own 64-bit truncation. */
  lemma NoWrap(x: nat, y: nat)
    requires x < TWO_32 && y < TWO_32
    ensures (x * y) % TWO_64 == x * y
  {
    ProductFitsWord(x, y);
    SmallMod(x * y, TWO_64);
  }

  /**
   * `modexp(base, exponent, modulus)`: square-and-multiply with 64-bit products.
   * With exponent 0 the loop never runs and the unreduced 1 is returned.
   */
  method ModExp(base: u64, exponent: u64, modulus: u64) returns (r: u64)
    requires exponent > 0 ==> modulus > 0
    ensures exponent == 0 ==> r == 1
    ensures exponent > 0 ==> r < modulus
    ensures exponent > 0 && base < TWO_32 && modulus <= TWO_32 ==> r == Pow(base, exponent) % modulus
  {
    ghost var exact := exponent > 0 && base < TWO_32 && modulus <= TWO_32;
    var result: u64 := 1;
    var b: u64 := base;
    var e: u64 := exponent;
    while e > 0
      invariant e <= exponent
      invariant exponent == 0 ==> result == 1
      invariant exponent > 0 && e == 0 ==> result < modulus
      invariant exact ==> b < TWO_32 && result < TWO_32
      invariant exact ==> (result * Pow(b, e)) % modulus == Pow(base, exponent) % modulus
      decreases e
    {
      ghost var result0, b0, e0 := result, b, e;
      if e % 2 == 1 {
        result := (result * b) % TWO_64 % modulus;
      }
      b := (b * b) % TWO_64 % modulus;
      e := e / 2;
      if exact {
        ModExpLoopStep(result0, b0, e0, modulus, Pow(base, exponent) % modulus, result, b);
      }
    }
    r := result;
    if exact {
      SmallMod(r, modulus);
      assert Pow(b, 0) == 1;
    }
  }

  // ---------------------------------------------------------------------------
  // Polynomials as coefficient sequences, lowest degree first
  // ---------------------------------------------------------------------------

  /** The coefficient of x^k, zero outside the sequence. */
  function Coef(p: seq<int>, k: int): int
  {
    if 0 <= k < |p| then p[k] else 0
  }

  /** The coefficients of p(x) * (x - r). */
  function MulLinear(p: seq<int>, r: int): (q: seq<int>)
    ensures |q| == |p| + 1
  {
    seq(|p| + 1, k => Coef(p, k - 1) - r * Coef(p, k))
  }

  /** The coefficients of (x - roots[0]) * (x - roots[1]) * ... over the integers. */
  function ProductPoly(roots: seq<int>): (p: seq<int>)
    ensures |p| == |roots| + 1
    decreases |roots|
  {
    if roots == [] then [1]
    else MulLinear(ProductPoly(roots[..|roots| - 1]), roots[|roots| - 1])
  }

  /** p(x), by Horner's rule. */
  function Eval(p: seq<int>, x: int): int
  {
    if p == [] then 0 else p[0] + x * Eval(p[1..], x)
  }

  /** How multiplying by (x - r) acts on the head and the tail of p. */
  lemma MulLinearCons(p: seq<int>, r: int)
    requires p != []
    ensures var q, q' := MulLinear(p, r), MulLinear(p[1..], r);
            q[0] == -r * p[0] && q[1..][0] == p[0] + q'[0] && q[1..][1..] == q'[1..]
  {
    var q, q' := MulLinear(p, r), MulLinear(p[1..], r);
    assert q[0] == Coef(p, -1) - r * Coef(p, 0);
    forall k | 0 <= k < |q'| - 1
      ensures q[1..][1..][k] == q'[1..][k]
    {
      assert Coef(p, k + 1) == Coef(p[1..], k);
      assert Coef(p, k + 2) == Coef(p[1..], k + 1);
    }
  }

  lemma LinearFactorAlgebra(a: int, e: int, x: int, r: int)
    ensures -r * a + x * (a + e * (x - r)) == (a + x * e) * (x - r)
  {
  }

  lemma {:induction false} EvalMulLinear(p: seq<int>, r: int, x: int)
    ensures Eval(MulLinear(p, r), x) == Eval(p, x) * (x - r)
    decreases |p|
  {
    var q := MulLinear(p, r);
    if p == [] {
      assert q == [0];
      assert Eval(q, x) == 0 + x * Eval([], x);
    } else {
      var a, p' := p[0], p[1..];
      var q' := MulLinear(p', r);
      var e := Eval(p', x);
      EvalMulLinear(p', r, x);
      MulLinearCons(p, r);
      var t := q[1..];
      assert Eval(t, x) == a + Eval(q', x) by {
        assert Eval(t, x) == t[0] + x * Eval(t[1..], x);
        assert Eval(q', x) == q'[0] + x * Eval(q'[1..], x);
      }
      assert Eval(q, x) == -r * a + x * (a + e * (x - r));
      LinearFactorAlgebra(a, e, x, r);
    }
  }

  /** Every root is a zero of the product polynomial. */
  lemma {:induction false} EvalProductPolyAtRoot(roots: seq<int>, i: nat)
    requires i < |roots|
    ensures Eval(ProductPoly(roots), roots[i]) == 0
    decreases |roots|
  {
    var n := |roots|;
    var pre := roots[..n - 1];
    var P, x, r := ProductPoly(pre), roots[i], roots[n - 1];
    assert ProductPoly(roots) == MulLinear(P, r);
    EvalMulLinear(P, r, x);
    if i < n - 1 {
      assert pre[i] == x;
      EvalProductPolyAtRoot(pre, i);
      assert Eval(P, x) * (x - r) == 0 * (x - r);
    } else {
      assert Eval(P, x) * (x - r) == Eval(P, x) * 0;
    }
  }

  /** Coefficients that agree modulo m give values that agree modulo m. */
  lemma {:induction false} EvalCongruent(p: seq<int>, q: seq<int>, x: int, m: int)
    requires m > 0 && |p| == |q|
    requires forall k :: 0 <= k < |p| ==> p[k] % m == q[k] % m
    ensures Eval(p, x) % m == Eval(q, x) % m
    decreases |p|
  {
    if p != [] {
      var ep, eq := Eval(p[1..], x), Eval(q[1..], x);
      EvalCongruent(p[1..], q[1..], x, m);
      MulCongruent(x, ep, eq, m);
      calc {
        Eval(p, x) % m;
        (p[0] + x * ep) % m;
        { AddMod(p[0], x * ep, m); }
        (p[0] % m + (x * ep) % m) % m;
        (q[0] % m + (x * eq) % m) % m;
        { AddMod(q[0], x * eq, m); }
        (q[0] + x * eq) % m;
      }
    }
  }

  // ---------------------------------------------------------------------------
  // polynomial_from_roots
  // ---------------------------------------------------------------------------

  /** `m - (r % m)` stands for -r modulo m. */
  lemma NegRootMod(r: int, m: int)
    requires m > 0
    ensures (m - r % m) % m == (-r) % m
  {
    assert m - r % m == m * (1 + r / m) + (-r);
    ModAddMultiple(1 + r / m, -r, m);
  }

  /** The coefficient update `a + neg * b` computes `A - r * B` modulo m. */
  lemma LinearStepMod(a: int, b: int, A: int, B: int, neg: int, r: int, m: int)
    requires m > 0 && a % m == A % m && b % m == B % m && neg % m == (-r) % m
    ensures (a + neg * b) % m == (A - r * B) % m
  {
    MulMod(neg, b, m);
    MulMod(-r, B, m);
    assert (neg * b) % m == ((-r) * B) % m;
    AddMod(a, neg * b, m);
    AddMod(A, (-r) * B, m);
    assert A - r * B == A + (-r) * B;
  }

  /** A table entry: reduced, or the initial 0 / 1 of the vector. */
  ghost predicate Small(x: int, m: int)
  {
    x < m || x <= 1
  }

  lemma MulMonotone(a: nat, b: nat, c: nat)
    requires b <= c
    ensures a * b <= a * c
  {
    assert a * c - a * b == a * (c - b);
  }

  /** With a modulus of at most 2^32, `y + neg * x` fits in 64 bits. */
  lemma StepFitsWord(y: nat, x: nat, neg: nat, m: nat)
    requires 0 < m <= TWO_32 && neg <= m && Small(x, m) && Small(y, m)
    ensures neg * x < TWO_64 && y + neg * x < TWO_64
  {
    if m == 1 {
      assert x <= 1 && neg <= 1;
      MulMonotone(neg, x, 1);
    } else {
      assert x <= m - 1 && y <= m - 1;
      MulMonotone(neg, x, m - 1);
      MulMonotone(m - 1, neg, m);
      assert neg * x <= (m - 1) * m;
      MulMonotone(m, m, TWO_32);
      MulMonotone(TWO_32, m, TWO_32);
      assert (m - 1) * m + (m - 1) < m * m;
    }
  }

  /** One coefficient update of the inner loop of `polynomial_from_roots`. */
  lemma CoefficientStep(y: nat, x: nat, neg: nat, r: int, A: int, B: int, m: nat, exact: bool)
    requires 0 < m && neg <= m && neg % m == (-r) % m && y < TWO_64
    requires exact ==> m <= TWO_32 && Small(x, m) && Small(y, m)
    requires exact ==> y % m == A % m && x % m == B % m
    ensures var v := ((y + (neg * x) % TWO_64) % TWO_64) % m;
            v < m && (x == 0 ==> v == y % m) && (exact ==> v % m == (A - r * B) % m)
  {
    if x == 0 {
      CoefficientStepZero(y, neg, m);
    }
    if exact {
      CoefficientStepExact(y, x, neg, r, A, B, m);
    }
  }

  lemma CoefficientStepZero(y: nat, neg: nat, m: nat)
    requires 0 < m && y < TWO_64
    ensures ((y + (neg * 0) % TWO_64) % TWO_64) % m == y % m
  {
    assert neg * 0 == 0;
    SmallMod(0, TWO_64);
    SmallMod(y, TWO_64);
  }

  lemma CoefficientStepExact(y: nat, x: nat, neg: nat, r: int, A: int, B: int, m: nat)
    requires 0 < m <= TWO_32 && neg <= m && neg % m == (-r) % m
    requires Small(x, m) && Small(y, m) && y % m == A % m && x % m == B % m
    ensures ((y + (neg * x) % TWO_64) % TWO_64) % m % m == (A - r * B) % m
  {
    StepFitsWord(y, x, neg, m);
    SmallMod(neg * x, TWO_64);
    SmallMod(y + neg * x, TWO_64);
    ModIdempotent(y + neg * x, m);
    LinearStepMod(y, x, A, B, neg, r, m);
  }

  lemma ModIdempotent(v: int, m: int)
    requires m > 0
    ensures v % m % m == v % m
  {
    SmallMod(v % m, m);
  }

  /** The constant-coefficient update `result[0] * neg`. */
  lemma ConstantStep(x: nat, neg: nat, r: int, B: int, m: nat, exact: bool)
    requires 0 < m && neg <= m && neg % m == (-r) % m
    requires exact ==> m <= TWO_32 && Small(x, m) && x % m == B % m
    ensures var v := (x * neg) % TWO_64 % m;
            v < m && (exact ==> v % m == (0 - r * B) % m)
  {
    if exact {
      StepFitsWord(0, x, neg, m);
      assert x * neg == neg * x;
      SmallMod(neg * x, TWO_64);
      ModIdempotent(neg * x, m);
      LinearStepMod(0, x, 0, B, neg, r, m);
    }
  }

  /** Coefficients congruent to those of the product polynomial vanish at every root, modulo m. */
  lemma RootsAreZeros(coeffs: seq<int>, roots: seq<int>, m: int)
    requires m > 0 && |coeffs| == |roots| + 1
    requires forall k :: 0 <= k < |coeffs| ==> coeffs[k] % m == ProductPoly(roots)[k] % m
    ensures forall i :: 0 <= i < |roots| ==> Eval(coeffs, roots[i]) % m == 0
  {
    forall i | 0 <= i < |roots|
      ensures Eval(coeffs, roots[i]) % m == 0
    {
      RootIsZero(coeffs, roots, m, i);
    }
  }

  lemma RootIsZero(coeffs: seq<int>, roots: seq<int>, m: int, i: nat)
    requires m > 0 && |coeffs| == |roots| + 1 && i < |roots|
    requires forall k :: 0 <= k < |coeffs| ==> coeffs[k] % m == ProductPoly(roots)[k] % m
    ensures Eval(coeffs, roots[i]) % m == 0
  {
    var x, P := roots[i], ProductPoly(roots);
    EvalCongruent(coeffs, P, x, m);
    EvalProductPolyAtRoot(roots, i);
    assert Eval(P, x) == 0;
    assert Eval(coeffs, x) % m == 0 % m;
  }

  /** Reduced entries congruent to the product polynomial's coefficients are those coefficients reduced. */
  lemma FinalCoefficients(coeffs: seq<u64>, roots: seq<int>, m: nat)
    requires m > 0 && |coeffs| == |roots| + 1
    requires forall k :: 0 <= k < |coeffs| ==> coeffs[k] < m
    requires forall k :: 0 <= k < |coeffs| ==> coeffs[k] % m == ProductPoly(roots)[k] % m
    ensures forall k :: 0 <= k < |coeffs| ==> coeffs[k] == ProductPoly(roots)[k] % m
    ensures forall i :: 0 <= i < |roots| ==> Eval(coeffs, roots[i]) % m == 0
  {
    forall k | 0 <= k < |coeffs|
      ensures coeffs[k] == ProductPoly(roots)[k] % m
    {
      SmallMod(coeffs[k], m);
    }
    RootsAreZeros(coeffs, roots, m);
  }

  lemma ProductPolyStep(roots: seq<int>, i: nat)
    requires i < |roots|
    ensures ProductPoly(roots[..i + 1]) == MulLinear(ProductPoly(roots[..i]), roots[i])
  {
    assert roots[..i + 1][..i] == roots[..i];
  }

  /**
   * The body of the outer loop of `polynomial_from_roots`: entries 0..i+1 of
   * `a`, holding a polynomial P of degree i (and a zero above it), are
   * replaced by those of P(x) * (x - root), walking from the top down, with
   * `negRoot` standing for -root modulo `modulus`.
   */
  method MultiplyByLinear(a: array<u64>, i: nat, negRoot: u64, modulus: u64,
                          ghost root: int, ghost P: seq<int>, ghost exact: bool)
    requires i + 1 < a.Length && 0 < modulus && negRoot <= modulus
    requires negRoot % modulus == (-root) % modulus
    requires a[i + 1] == 0 && forall k :: 0 <= k <= i ==> Small(a[k], modulus)
    requires exact ==> modulus <= TWO_32 && |P| == i + 1
    requires exact ==> forall k :: 0 <= k <= i ==> a[k] % modulus == P[k] % modulus
    modifies a
    ensures forall k :: i + 1 < k < a.Length ==> a[k] == old(a[k])
    ensures forall k :: 0 <= k <= i + 1 ==> a[k] < modulus
    ensures a[i + 1] == old(a[i]) % modulus
    ensures exact ==> forall k :: 0 <= k <= i + 1 ==>
      a[k] % modulus == MulLinear(P, root)[k] % modulus
  {
    ghost var prev := a[..];
    var j := i + 1;
    while j > 0
      invariant 0 <= j <= i + 1
      invariant forall k :: 0 <= k <= j ==> a[k] == prev[k]
      invariant forall k :: i + 1 < k < a.Length ==> a[k] == prev[k]
      invariant forall k :: j < k <= i + 1 ==> a[k] < modulus
      invariant j <= i ==> a[i + 1] == prev[i] % modulus
      invariant exact ==> forall k :: j < k <= i + 1 ==>
        a[k] % modulus == (Coef(P, k - 1) - root * Coef(P, k)) % modulus
    {
      CoefficientStep(a[j - 1], a[j], negRoot, root, Coef(P, j - 1), Coef(P, j), modulus, exact);
      a[j] := ((a[j - 1] + (negRoot * a[j]) % TWO_64) % TWO_64) % modulus;
      j := j - 1;
    }
    ConstantStep(a[0], negRoot, root, Coef(P, 0), modulus, exact);
    a[0] := (a[0] * negRoot) % TWO_64 % modulus;
  }

  /**
   * `polynomial_from_roots(roots, modulus)`: the coefficients of
   * (x - roots[0]) * ... * (x - roots[n-1]) modulo `modulus`, lowest degree
   * first, built in place in a vector of n + 1 entries.
   */
  method PolynomialFromRoots(roots: seq<u64>, modulus: u64) returns (coeffs: seq<u64>)
    requires |roots| > 0 ==> modulus > 0
    ensures |coeffs| == |roots| + 1
    ensures |roots| == 0 ==> coeffs == [1]
    ensures |roots| > 0 ==> forall k :: 0 <= k < |coeffs| ==> coeffs[k] < modulus
    ensures |roots| > 0 && modulus > 1 ==> coeffs[|roots|] == 1
    ensures |roots| > 0 && modulus <= TWO_32 ==>
      forall k :: 0 <= k < |coeffs| ==> coeffs[k] == ProductPoly(roots)[k] % modulus
    ensures |roots| > 0 && modulus <= TWO_32 ==>
      forall i :: 0 <= i < |roots| ==> Eval(coeffs, roots[i]) % modulus == 0
  {
    var n := |roots|;
    ghost var exact := n > 0 && modulus <= TWO_32;
    var result := new u64[n + 1](_ => 0);
    result[0] := 1;
    for i := 0 to n
      invariant forall k :: i < k <= n ==> result[k] == 0
      invariant i == 0 ==> result[0] == 1
      invariant i > 0 ==> forall k :: 0 <= k <= n ==> result[k] < modulus
      invariant i > 0 ==> result[i] == 1 % modulus
      invariant exact ==> forall k :: 0 <= k <= i ==>
        result[k] % modulus == ProductPoly(roots[..i])[k] % modulus
    {
      var negRoot := modulus - roots[i] % modulus;
      NegRootMod(roots[i], modulus);
      MultiplyByLinear(result, i, negRoot, modulus, roots[i], ProductPoly(roots[..i]), exact);
      ProductPolyStep(roots, i);
      SmallMod(1 % modulus, modulus);
    }
    coeffs := result[..];
    assert roots[..n] == roots;
    if n > 0 && modulus > 1 {
      SmallMod(1, modulus);
    }
    if exact {
      FinalCoefficients(coeffs, roots, modulus);
    }
  }
}
