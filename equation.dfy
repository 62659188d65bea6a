/** The helpers of a Durand-Kerner polynomial root finder: the polynomial as a
    coefficient vector, the seed points on the unit circle, the evaluation loop
    and the product of differences between one root estimate and the others. */
module Equation {
  import opened Series
  import opened ComplexNumbers

  /** A polynomial by its coefficients, parameters[k] multiplying x^k. */
  datatype EquationWithDegrees = EquationWithDegrees(parameters: seq<Complex>)

  /** `new`: the coefficient vector is stored as given. */
  function New(parameters: seq<Complex>): (e: EquationWithDegrees)
    ensures e.parameters == parameters
  {
    EquationWithDegrees(parameters)
  }

  // ---------------------------------------------------------------------------
  // Seed roots

  /** `(2 * i as i64 * PI) / size as i64` needs 2 * i to fit in an i64, which
      holds for every i below size exactly when size is at most 2^62. */
  const MAX_SEEDS: nat := 0x4000_0000_0000_0000

  /** The angle of seed i: 2 pi i / size. */
  function SeedAngle(i: nat, size: nat): real
    requires size > 0
  {
    (2 * i) as real * PI / size as real
  }

  lemma DivBelow(q: real, s: real, b: real)
    requires s > 0.0 && q < b * s
    ensures q / s < b
  {
    var r := q / s;
    assert r * s == q;
    if r >= b {
    }
  }

  /** Every seed angle lies in (0, 2 pi), where angle normalisation is the
      identity. */
  lemma SeedAngleRange(i: nat, size: nat)
    requires 0 < i < size
    ensures 0.0 < SeedAngle(i, size) < 2.0 * PI
    ensures NormalizableAngle(SeedAngle(i, size))
    ensures NormalizeAngle(SeedAngle(i, size)) == SeedAngle(i, size)
  {
    var q := (2 * i) as real * PI;
    var s := size as real;
    assert q > 0.0;
    assert q < (2.0 * PI) * s;
    DivBelow(q, s, 2.0 * PI);
    NormalizeSmallAngle(SeedAngle(i, size));
  }

  /** Seed i: the truncated cosine (5 terms) and sine (its fixed 30 terms) of
      its angle. */
  function SeedRoot(i: nat, size: nat): Complex
    requires 0 < i < size
  {
    SeedAngleRange(i, size);
    Complex(CosOf(SeedAngle(i, size), 5), SinOf(SeedAngle(i, size)))
  }

  /** `initial_roots`: one seed for each i in 1..size, so size - 1 of them (none
      for size 0 or 1), seed i stored at index i - 1. */
  method InitialRoots(size: nat) returns (result: seq<Complex>)
    requires size <= MAX_SEEDS
    ensures |result| == if size == 0 then 0 else size - 1
    ensures forall k :: 0 <= k < |result| ==> result[k] == SeedRoot(k + 1, size)
  {
    result := [];
    var i := 1;
    while i < size
      invariant 1 <= i <= if size == 0 then 1 else size
      invariant |result| == i - 1
      invariant forall k :: 0 <= k < |result| ==> result[k] == SeedRoot(k + 1, size)
    {
      SeedAngleRange(i, size);
      var angle := SeedAngle(i, size);
      var re := CalcCos(angle, 5);
      var im := CalcSin(angle, 5);
      result := result + [Complex(re, im)];
      i := i + 1;
    }
  }

  /** Because seed angles need no normalisation, each seed is the plain
      partial sums at 2 pi i / size. */
  lemma SeedRootIsPlainSeries(i: nat, size: nat)
    requires 0 < i < size
    ensures SeedRoot(i, size).re == CosSeries(SeedAngle(i, size), 5)
    ensures SeedRoot(i, size).im == SinSeries(SeedAngle(i, size), SIN_TERMS)
  {
    SeedAngleRange(i, size);
  }

  // ---------------------------------------------------------------------------
  // Polynomial evaluation

  /** The terms parameters[k] * x^k for k in lo..hi, added from left to right
      onto 0 + 0i; a range with lo >= hi is empty, as a Rust range is. */
  function Terms(parameters: seq<Complex>, x: Complex, lo: int, hi: int): Complex
    requires lo >= hi || (0 <= lo && hi <= |parameters|)
    decreases hi - lo
  {
    if lo >= hi then Zero
    else Add(Terms(parameters, x, lo, hi - 1), Mul(parameters[hi - 1], CPow(x, hi - 1)))
  }

  /** The value of the polynomial at x: the sum of every term. */
  function PolyValue(parameters: seq<Complex>, x: Complex): Complex
  {
    Terms(parameters, x, 0, |parameters|)
  }

  /** An independent reference: Horner's rule c0 + x (c1 + x (c2 + ...)). */
  function Horner(parameters: seq<Complex>, x: Complex): Complex
  {
    if |parameters| == 0 then Zero
    else Add(parameters[0], Mul(x, Horner(parameters[1..], x)))
  }

  /** The body of `calc_eq`'s loop over a range lo..hi of exponents: add
      parameters[pow] * complex_pow(x, pow) for each pow in turn. */
  method SumTerms(parameters: seq<Complex>, x: Complex, lo: int, hi: int) returns (result: Complex)
    requires lo >= hi || (0 <= lo && hi <= |parameters| && hi <= I32_MAX + 1)
    ensures result == Terms(parameters, x, lo, hi)
  {
    result := Zero;
    if lo >= hi {
      return;
    }
    var pow := lo;
    while pow < hi
      invariant lo <= pow <= hi
      invariant result == Terms(parameters, x, lo, pow)
    {
      var parameter := parameters[pow];
      var p := ComplexPow(x, pow);
      result := Add(result, Mul(parameter, p));
      pow := pow + 1;
    }
  }

  /** `len as i32`: the low 32 bits of the length, read as a signed number. */
  function AsI32(n: nat): (r: int)
    ensures I32_MIN <= r <= I32_MAX
    ensures r == n % 0x1_0000_0000 || r == n % 0x1_0000_0000 - 0x1_0000_0000
    ensures n <= I32_MAX ==> r == n
  {
    var low := n % 0x1_0000_0000;
    if low <= I32_MAX then low else low - 0x1_0000_0000
  }

  /** `calc_eq` as written: it iterates over `len as i32 .. 0`. When the cast is
      negative the first `get(pow as usize)` is out of range and `unwrap`
      panics, so that case is excluded; otherwise the range is empty. */
  method CalcEq(eq: EquationWithDegrees, x: Complex) returns (result: Complex)
    requires AsI32(|eq.parameters|) >= 0
    ensures result == Terms(eq.parameters, x, AsI32(|eq.parameters|), 0)
  {
    result := SumTerms(eq.parameters, x, AsI32(|eq.parameters|), 0);
  }

  /** Whatever the coefficients and x, `calc_eq` gives 0 + 0i. */
  lemma CalcEqIsZero(parameters: seq<Complex>, x: Complex)
    requires AsI32(|parameters|) >= 0
    ensures Terms(parameters, x, AsI32(|parameters|), 0) == Zero
  {
  }

  /** The constant polynomial 1 evaluates to 1 everywhere, but `calc_eq`
      returns 0 for it. */
  lemma CalcEqMissesConstant(x: Complex)
    ensures AsI32(|[One]|) == 1
    ensures Terms([One], x, AsI32(|[One]|), 0) == Zero
    ensures PolyValue([One], x) == One
  {
    assert AsI32(1) == 1;
    PolyValueConstant(One, x);
  }

  /** A constant polynomial evaluates to its constant. */
  lemma PolyValueConstant(c: Complex, x: Complex)
    ensures PolyValue([c], x) == c
  {
    calc {
      PolyValue([c], x);
    ==
      Add(Terms([c], x, 0, 0), Mul(c, CPow(x, 0)));
    == { MulOne(c); }
      Add(Zero, c);
    }
  }

  /** The evaluation `calc_eq` is evidently meant to perform: the same loop over
      `0 .. len`. */
  method EvalPolynomial(eq: EquationWithDegrees, x: Complex) returns (result: Complex)
    requires |eq.parameters| <= I32_MAX
    ensures result == PolyValue(eq.parameters, x)
    ensures result == Horner(eq.parameters, x)
  {
    result := SumTerms(eq.parameters, x, 0, |eq.parameters|);
    PolyValueHorner(eq.parameters, x);
  }

  lemma MulZero(z: Complex)
    ensures Mul(z, Zero) == Zero
  {
  }

  /** x * (c * x^k) == c * x^(k+1). */
  lemma ShiftTerm(x: Complex, c: Complex, k: nat)
    ensures Mul(x, Mul(c, CPow(x, k))) == Mul(c, CPow(x, k + 1))
  {
    calc {
      Mul(x, Mul(c, CPow(x, k)));
    == { MulCommutative(x, Mul(c, CPow(x, k))); }
      Mul(Mul(c, CPow(x, k)), x);
    == { MulAssociative(c, CPow(x, k), x); }
      Mul(c, Mul(CPow(x, k), x));
    }
  }

  /** Splitting off the constant coefficient: the terms of 0..n equal c0 plus
      x times the terms of the remaining coefficients over 0..n-1. */
  lemma {:induction false} TermsShift(s: seq<Complex>, x: Complex, n: nat)
    requires 1 <= n <= |s|
    ensures Terms(s, x, 0, n) == Add(s[0], Mul(x, Terms(s[1..], x, 0, n - 1)))
  {
    var rest := s[1..];
    if n == 1 {
      MulOne(s[0]);
      MulZero(x);
      AddLaws(Zero, s[0], Zero);
    } else {
      TermsShift(s, x, n - 1);
      var t := Terms(rest, x, 0, n - 2);
      var m := Mul(rest[n - 2], CPow(x, n - 2));
      assert rest[n - 2] == s[n - 1];
      calc {
        Terms(s, x, 0, n);
      ==
        Add(Terms(s, x, 0, n - 1), Mul(s[n - 1], CPow(x, n - 1)));
      ==
        Add(Add(s[0], Mul(x, t)), Mul(s[n - 1], CPow(x, n - 1)));
      == { ShiftTerm(x, s[n - 1], n - 2); }
        Add(Add(s[0], Mul(x, t)), Mul(x, m));
      == { AddLaws(s[0], Mul(x, t), Mul(x, m)); }
        Add(s[0], Add(Mul(x, t), Mul(x, m)));
      == { MulDistributes(x, t, m); }
        Add(s[0], Mul(x, Add(t, m)));
      ==
        Add(s[0], Mul(x, Terms(rest, x, 0, n - 1)));
      }
    }
  }

  /** Summing the terms and Horner's rule agree on every polynomial and every x. */
  lemma {:induction false} PolyValueHorner(s: seq<Complex>, x: Complex)
    ensures PolyValue(s, x) == Horner(s, x)
  {
    if |s| > 0 {
      TermsShift(s, x, |s|);
      PolyValueHorner(s[1..], x);
    }
  }

  /** By Horner's rule, the coefficients [-1, 0, 1] give x * x - 1. */
  lemma SquareMinusOne(x: Complex)
    ensures PolyValue([Complex(-1.0, 0.0), Zero, One], x) == Add(Complex(-1.0, 0.0), Mul(x, x))
  {
    var s := [Complex(-1.0, 0.0), Zero, One];
    PolyValueHorner(s, x);
    assert s[1..] == [Zero, One];
    assert s[1..][1..] == [One];
    assert s[1..][1..][1..] == [];
    MulZero(x);
    MulOne(x);
    assert Horner([One], x) == One;
    assert Horner([Zero, One], x) == x;
  }

  /** x^2 - 1 has the roots 1 and -1. */
  lemma SquareMinusOneRoots()
    ensures PolyValue([Complex(-1.0, 0.0), Zero, One], One) == Zero
    ensures PolyValue([Complex(-1.0, 0.0), Zero, One], Complex(-1.0, 0.0)) == Zero
  {
    SquareMinusOne(One);
    SquareMinusOne(Complex(-1.0, 0.0));
  }

  // ---------------------------------------------------------------------------
  // Products of differences

  /** Whether a root estimate differs from the current one in either part. */
  predicate Differs(root: Complex, current: Complex)
  {
    root.re != current.re || root.im != current.im
  }

  /** The product of current - r over the roots r that differ from current,
      taken left to right starting from 1 + 0i. */
  function RootProd(roots: seq<Complex>, current: Complex): Complex
  {
    if |roots| == 0 then One
    else
      var p := RootProd(roots[..|roots| - 1], current);
      var root := roots[|roots| - 1];
      if Differs(root, current) then Mul(p, Sub(current, root)) else p
  }

  /** `calc_root_prods`. */
  method CalcRootProds(roots: seq<Complex>, current: Complex) returns (result: Complex)
    ensures result == RootProd(roots, current)
  {
    result := One;
    var i := 0;
    while i < |roots|
      invariant 0 <= i <= |roots|
      invariant result == RootProd(roots[..i], current)
    {
      var root := roots[i];
      assert roots[..i + 1][..i] == roots[..i];
      if root.re != current.re || root.im != current.im {
        result := Mul(result, Sub(current, root));
      }
      i := i + 1;
    }
    assert roots[..|roots|] == roots;
  }

  /** A root that differs contributes a non-zero factor. */
  lemma DifferenceNonZero(root: Complex, current: Complex)
    requires Differs(root, current)
    ensures Sub(current, root) != Zero
  {
  }

  /** Every factor is non-zero, so under exact arithmetic so is the product. */
  lemma {:induction false} RootProdNonZero(roots: seq<Complex>, current: Complex)
    ensures RootProd(roots, current) != Zero
  {
    if |roots| > 0 {
      var root := roots[|roots| - 1];
      RootProdNonZero(roots[..|roots| - 1], current);
      if Differs(root, current) {
        DifferenceNonZero(root, current);
        MulNonZero(RootProd(roots[..|roots| - 1], current), Sub(current, root));
      }
    }
  }

  /** When no root differs from current (in particular for no roots at all)
      the product is 1 + 0i. */
  lemma {:induction false} RootProdNoneDiffer(roots: seq<Complex>, current: Complex)
    requires forall k :: 0 <= k < |roots| ==> !Differs(roots[k], current)
    ensures RootProd(roots, current) == One
  {
    if |roots| > 0 {
      RootProdNoneDiffer(roots[..|roots| - 1], current);
    }
  }

  /** The product over a concatenation is the product of the two products. */
  lemma {:induction false} RootProdAppend(a: seq<Complex>, b: seq<Complex>, current: Complex)
    ensures RootProd(a + b, current) == Mul(RootProd(a, current), RootProd(b, current))
  {
    if |b| == 0 {
      assert a + b == a;
      MulOne(RootProd(a, current));
    } else {
      var b' := b[..|b| - 1];
      var root := b[|b| - 1];
      assert (a + b)[..|a + b| - 1] == a + b';
      assert (a + b)[|a + b| - 1] == root;
      RootProdAppend(a, b', current);
      if Differs(root, current) {
        MulAssociative(RootProd(a, current), RootProd(b', current), Sub(current, root));
      }
    }
  }
}
