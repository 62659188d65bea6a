/** Scalar series evaluator: binary exponentiation, angle normalisation and
    the truncated Taylor series for cosine, sine and arctangent. Scalars are
    exact reals, standing for the arbitrary-precision decimals of the source. */
module Series {

  /** The 30-digit decimal literal used for pi throughout the source. */
  const PI: real := 3.141592653589793238462643383279

  const I64_MIN: int := -0x8000_0000_0000_0000
  const I64_MAX: int := 0x7fff_ffff_ffff_ffff

  /** The number of Taylor terms that `CalcSin` always sums. */
  const SIN_TERMS: nat := 30

  /** The `terms` bound of the arctangent loop: the loop runs for k in [1, ARCTAN_TERMS). */
  const ARCTAN_TERMS: nat := 1000

  // ---------------------------------------------------------------------------
  // Powers

  /** b^n by repeated multiplication: the reference definition. */
  function Pow(b: real, n: nat): real
  {
    if n == 0 then 1.0 else b * Pow(b, n - 1)
  }

  lemma {:induction false} PowAdd(b: real, m: nat, n: nat)
    ensures Pow(b, m + n) == Pow(b, m) * Pow(b, n)
  {
    if m > 0 {
      PowAdd(b, m - 1, n);
    }
  }

  lemma {:induction false} PowSquare(b: real, n: nat)
    ensures Pow(b * b, n) == Pow(b, 2 * n)
  {
    if n > 0 {
      PowSquare(b, n - 1);
      PowAdd(b, 2, 2 * n - 2);
    }
  }

  /** Raising a negated base: even powers forget the sign, odd ones keep it. */
  lemma {:induction false} PowNeg(b: real, n: nat)
    ensures Pow(-b, n) == if n % 2 == 0 then Pow(b, n) else -Pow(b, n)
  {
    if n > 0 {
      PowNeg(b, n - 1);
    }
  }

  lemma {:induction false} PowZeroBase(n: nat)
    requires n > 0
    ensures Pow(0.0, n) == 0.0
  {
  }

  /** Binary exponentiation: each round squares the base and halves the
      exponent, multiplying the base into the result when the exponent is odd.
      `exponent` is a `u64` in the source. */
  method FastPow(base: real, exponent: nat) returns (result: real)
    ensures result == Pow(base, exponent)
  {
    result := 1.0;
    var currentBase := base;
    var e := exponent;
    while e > 0
      invariant result * Pow(currentBase, e) == Pow(base, exponent)
      decreases e
    {
      PowSquare(currentBase, e / 2);
      if e % 2 == 1 {
        PowAdd(currentBase, 1, 2 * (e / 2));
        result := result * currentBase;
      }
      currentBase := currentBase * currentBase;
      e := e / 2;
    }
  }

  // ---------------------------------------------------------------------------
  // Factorials

  /** n! as a scalar. */
  function FactR(n: nat): (r: real)
    ensures r >= 1.0
  {
    if n == 0 then 1.0 else n as real * FactR(n - 1)
  }

  lemma CastMul(a: int, b: int)
    ensures (a * b) as real == a as real * b as real
  {
  }

  /** The cosine loop's update: n! = (n-2)! * (n * (n-1)). */
  lemma FactRStep(n: nat)
    requires n >= 2
    ensures FactR(n) == FactR(n - 2) * (n * (n - 1)) as real
  {
    assert FactR(n) == n as real * ((n - 1) as real * FactR(n - 2));
    CastMul(n, n - 1);
  }

  /** The same update on the running value held by the cosine loop. */
  lemma FactRNext(n: nat, factorial: real)
    requires n >= 2 && factorial == FactR(n - 2)
    ensures factorial * (n * (n - 1)) as real == FactR(n)
  {
    FactRStep(n);
  }

  /** The sine loop's update: (2t+1)! = (2t-1)! * ((2t) * (2t+1)). */
  lemma SinFactStep(t: nat)
    requires t >= 1
    ensures FactR(2 * t + 1) == FactR(2 * t - 1) * ((2 * t) * (2 * t + 1)) as real
  {
    var n := 2 * t + 1;
    FactRStep(n);
    CastMul(2 * t, 2 * t + 1);
    CastMul(n, n - 1);
  }

  // ---------------------------------------------------------------------------
  // Angle normalisation

  /** k whole turns. */
  function Turns(k: int): real
  {
    k as real * (2.0 * PI)
  }

  /** Truncation of a real toward zero. */
  function Trunc(q: real): int
  {
    if q >= 0.0 then q.Floor else -((-q).Floor)
  }

  /** `to_i64` succeeds only when angle / 2pi, truncated toward zero, fits in
      an i64, that is when that quotient lies strictly between I64_MIN - 1 and
      I64_MAX + 1. */
  predicate NormalizableAngle(angle: real)
  {
    (I64_MIN - 1) as real * (2.0 * PI) < angle < (I64_MAX + 1) as real * (2.0 * PI)
  }

  lemma NormalizableTrunc(angle: real)
    requires NormalizableAngle(angle)
    ensures I64_MIN <= Trunc(angle / (2.0 * PI)) <= I64_MAX
  {
    var q := angle / (2.0 * PI);
    assert angle == q * (2.0 * PI);
    assert (I64_MIN - 1) as real < q < (I64_MAX + 1) as real;
  }

  /** Subtracts the whole turns k * 2pi, k being angle / 2pi truncated toward
      zero: the result is a remainder strictly inside (-2pi, 2pi) that never has
      the opposite sign of the angle. */
  function NormalizeAngle(angle: real): (r: real)
    requires NormalizableAngle(angle)
    ensures -2.0 * PI < r < 2.0 * PI
    ensures angle >= 0.0 ==> r >= 0.0
    ensures angle <= 0.0 ==> r <= 0.0
    ensures exists k: int :: r == angle - Turns(k)
  {
    var turn := 2.0 * PI;
    var q := angle / turn;
    NormalizableTrunc(angle);
    var k := Trunc(q);
    var r := angle - k as real * turn;
    assert r == angle - Turns(k);
    assert angle == q * turn;
    assert r == (q - k as real) * turn;
    assert -1.0 < q - k as real < 1.0 && (q >= 0.0 ==> q - k as real >= 0.0) && (q <= 0.0 ==> q - k as real <= 0.0);
    r
  }

  lemma TruncNeg(q: real)
    ensures Trunc(-q) == -Trunc(q)
  {
  }

  /** Normalisation commutes with negation (when both quotients fit an i64). */
  lemma NormalizeAngleOdd(angle: real)
    requires NormalizableAngle(angle) && NormalizableAngle(-angle)
    ensures NormalizeAngle(-angle) == -NormalizeAngle(angle)
  {
    var turn := 2.0 * PI;
    assert -angle / turn == -(angle / turn);
    TruncNeg(angle / turn);
  }

  /** An angle already in [0, 2pi) is left unchanged. */
  lemma NormalizeSmallAngle(angle: real)
    requires 0.0 <= angle < 2.0 * PI
    ensures NormalizableAngle(angle)
    ensures NormalizeAngle(angle) == angle
  {
    var q := angle / (2.0 * PI);
    assert 0.0 <= q < 1.0;
    assert Trunc(q) == 0;
  }

  // ---------------------------------------------------------------------------
  // Cosine and sine

  /** The k-th term of the alternating Taylor series whose powers are
      2k + offset: offset 0 gives cosine, offset 1 gives sine. */
  function TaylorTerm(y: real, k: nat, offset: nat): real
  {
    Alternate(k, Pow(y, 2 * k + offset) / FactR(2 * k + offset))
  }

  /** (-1)^k v */
  function Alternate(k: nat, v: real): real
  {
    if k % 2 == 1 then -v else v
  }

  lemma TaylorTermIs(y: real, k: nat, offset: nat, p: real, factorial: real)
    requires p == Pow(y, 2 * k + offset) && factorial == FactR(2 * k + offset)
    ensures TaylorTerm(y, k, offset) == Alternate(k, p / factorial)
  {
  }

  lemma DivNeg(a: real, d: real)
    requires d != 0.0
    ensures -a / d == -(a / d)
  {
  }

  /** Sum of the first `terms` terms of that series. */
  function TaylorSum(y: real, terms: nat, offset: nat): real
  {
    if terms == 0 then 0.0 else TaylorSum(y, terms - 1, offset) + TaylorTerm(y, terms - 1, offset)
  }

  /** sum_{k < terms} (-1)^k y^(2k) / (2k)! */
  function CosSeries(y: real, terms: nat): real
  {
    TaylorSum(y, terms, 0)
  }

  /** sum_{k < terms} (-1)^k y^(2k+1) / (2k+1)! */
  function SinSeries(y: real, terms: nat): real
  {
    TaylorSum(y, terms, 1)
  }

  /** What `calc_cos(angle, terms)` computes. */
  function CosOf(angle: real, terms: nat): real
    requires NormalizableAngle(angle)
  {
    CosSeries(NormalizeAngle(angle), terms)
  }

  /** What `calc_sin(angle, _)` computes: its `terms` argument is shadowed by 30. */
  function SinOf(angle: real): real
    requires NormalizableAngle(angle)
  {
    SinSeries(NormalizeAngle(angle), SIN_TERMS)
  }

  method CalcCos(angle: real, terms: nat) returns (result: real)
    requires NormalizableAngle(angle)
    ensures result == CosOf(angle, terms)
  {
    var y := NormalizeAngle(angle);
    result := SumCosTerms(y, terms);
  }

  /** The summation loop of `calc_cos`, keeping the running factorial (2t)!. */
  method SumCosTerms(y: real, terms: nat) returns (result: real)
    ensures result == CosSeries(y, terms)
  {
    result := 0.0;
    var factorial := 1.0;
    for term := 0 to terms
      invariant factorial == FactR(if term == 0 then 0 else 2 * term - 2)
      invariant result == TaylorSum(y, term, 0)
    {
      var n := 2 * term;
      if term != 0 {
        FactRNext(n, factorial);
        factorial := factorial * (n * (n - 1)) as real;
      }
      var p := FastPow(y, n);
      var t := p / factorial;
      TaylorTermIs(y, term, 0, p, factorial);
      if term % 2 == 1 {
        result := result - t;
      } else {
        result := result + t;
      }
    }
  }

  /** `calc_sin` ignores its `terms` argument: it shadows it with 30 and sums
      that many terms of the sine series of the normalised angle. */
  method CalcSin(angle: real, terms: nat) returns (result: real)
    requires NormalizableAngle(angle)
    ensures result == SinOf(angle)
  {
    var y := NormalizeAngle(angle);
    var terms := SIN_TERMS;
    result := SumSinTerms(y, terms);
  }

  /** The summation loop of `calc_sin`, keeping the running factorial (2t+1)!. */
  method SumSinTerms(y: real, terms: nat) returns (result: real)
    ensures result == SinSeries(y, terms)
  {
    result := 0.0;
    var factorial := 1.0;
    for term := 0 to terms
      invariant factorial == FactR(if term == 0 then 1 else 2 * term - 1)
      invariant result == TaylorSum(y, term, 1)
    {
      var n := 2 * term + 1;
      if term != 0 {
        SinFactStep(term);
        factorial := factorial * ((2 * term) * (2 * term + 1)) as real;
      }
      var p := FastPow(y, n);
      var t := p / factorial;
      TaylorTermIs(y, term, 1, p, factorial);
      if term % 2 == 1 {
        result := result - t;
      } else {
        result := result + t;
      }
    }
  }

  lemma TaylorTermNeg(y: real, k: nat, offset: nat)
    requires offset <= 1
    ensures TaylorTerm(-y, k, offset) == if offset == 0 then TaylorTerm(y, k, offset) else -TaylorTerm(y, k, offset)
  {
    var n := 2 * k + offset;
    PowNeg(y, n);
    assert n % 2 == offset;
    DivNeg(Pow(y, n), FactR(n));
  }

  lemma {:induction false} TaylorSumNeg(y: real, terms: nat, offset: nat)
    requires offset <= 1
    ensures TaylorSum(-y, terms, offset) == if offset == 0 then TaylorSum(y, terms, offset) else -TaylorSum(y, terms, offset)
  {
    if terms > 0 {
      TaylorSumNeg(y, terms - 1, offset);
      TaylorTermNeg(y, terms - 1, offset);
    }
  }

  /** The truncated cosine is even and the truncated sine odd, normalisation
      included. */
  lemma CosEvenSinOdd(angle: real, terms: nat)
    requires NormalizableAngle(angle) && NormalizableAngle(-angle)
    ensures CosOf(-angle, terms) == CosOf(angle, terms)
    ensures SinOf(-angle) == -SinOf(angle)
  {
    NormalizeAngleOdd(angle);
    TaylorSumNeg(NormalizeAngle(angle), terms, 0);
    TaylorSumNeg(NormalizeAngle(angle), SIN_TERMS, 1);
  }

  lemma TaylorTermAtZero(k: nat, offset: nat)
    ensures TaylorTerm(0.0, k, offset) == if k == 0 && offset == 0 then 1.0 else 0.0
  {
    var n := 2 * k + offset;
    if n > 0 {
      PowZeroBase(n);
      assert Pow(0.0, n) / FactR(n) == 0.0;
    } else {
      assert FactR(0) == 1.0;
    }
  }

  /** At angle 0 only the constant cosine term survives. */
  lemma {:induction false} TaylorSumAtZero(terms: nat, offset: nat)
    ensures TaylorSum(0.0, terms, offset) == if terms > 0 && offset == 0 then 1.0 else 0.0
  {
    if terms > 0 {
      TaylorSumAtZero(terms - 1, offset);
      TaylorTermAtZero(terms - 1, offset);
    }
  }

  lemma CosSinAtZero(terms: nat)
    ensures NormalizableAngle(0.0)
    ensures CosOf(0.0, terms) == if terms > 0 then 1.0 else 0.0
    ensures SinOf(0.0) == 0.0
  {
    NormalizeSmallAngle(0.0);
    TaylorSumAtZero(terms, 0);
    TaylorSumAtZero(SIN_TERMS, 1);
  }

  // ---------------------------------------------------------------------------
  // Arctangent

  /** sum_{k=1}^{n} (-1)^(k+1) x^(2k-1) / (2k-1) */
  function ArctanSeries(x: real, n: nat): real
  {
    if n == 0 then 0.0
    else
      var m := 2 * n - 1;
      if n % 2 == 0 then ArctanSeries(x, n - 1) - Pow(x, m) / m as real
      else ArctanSeries(x, n - 1) + Pow(x, m) / m as real
  }

  function Abs(x: real): real
  {
    if x < 0.0 then -x else x
  }

  lemma ReciprocalInside(x: real)
    requires Abs(x) > 1.0
    ensures Abs(1.0 / x) < 1.0
  {
    if x > 0.0 {
      assert (1.0 / x) * x == 1.0;
    } else {
      assert (1.0 / x) * x == 1.0;
    }
  }

  /** The branch table of `calc_arctan`: the series inside (-1, 1), the exact
      values pi/4 and -pi/4 at 1 and -1, and outside a reflection through 1/x,
      which lands inside (-1, 1). */
  function Arctan(x: real): real
    decreases if Abs(x) <= 1.0 then 0 else 1
  {
    if Abs(x) < 1.0 then ArctanSeries(x, ARCTAN_TERMS - 1)
    else if x == 1.0 then PI / 4.0
    else if x == -1.0 then -PI / 4.0
    else
      ReciprocalInside(x);
      if x < 0.0 then -PI / 2.0 - Arctan(1.0 / x)
      else PI / 2.0 - Arctan(1.0 / x)
  }

  method CalcArctan(num: real) returns (result: real)
    ensures result == Arctan(num)
    decreases if Abs(num) <= 1.0 then 0 else 1
  {
    var terms := ARCTAN_TERMS;
    result := 0.0;
    if Abs(num) < 1.0 {
      for term := 1 to terms
        invariant result == ArctanSeries(num, term - 1)
      {
        var n := 2 * term - 1;
        var p := FastPow(num, n);
        if term % 2 == 0 {
          result := result - p / n as real;
        } else {
          result := result + p / n as real;
        }
      }
    } else if num == 1.0 {
      result := PI / 4.0;
    } else if num == -1.0 {
      result := -PI / 4.0;
    } else if num < 0.0 {
      ReciprocalInside(num);
      var inner := CalcArctan(1.0 / num);
      result := -PI / 2.0 - inner;
    } else {
      ReciprocalInside(num);
      var inner := CalcArctan(1.0 / num);
      result := PI / 2.0 - inner;
    }
  }

  lemma {:induction false} ArctanSeriesOdd(x: real, n: nat)
    ensures ArctanSeries(-x, n) == -ArctanSeries(x, n)
  {
    if n > 0 {
      ArctanSeriesOdd(x, n - 1);
      var m := 2 * n - 1;
      PowNeg(x, m);
      assert m % 2 == 1;
      assert Pow(-x, m) == -Pow(x, m);
      DivNeg(Pow(x, m), m as real);
    }
  }

  /** The branch table is odd: arctan(-x) = -arctan(x). */
  lemma ArctanOdd(x: real)
    ensures Arctan(-x) == -Arctan(x)
  {
    ArctanSeriesOdd(x, ARCTAN_TERMS - 1);
    if Abs(x) > 1.0 {
      ReciprocalInside(x);
      assert 1.0 / -x == -(1.0 / x);
      ArctanSeriesOdd(1.0 / x, ARCTAN_TERMS - 1);
    }
  }

  lemma {:induction false} ArctanSeriesAtZero(n: nat)
    ensures ArctanSeries(0.0, n) == 0.0
  {
    if n > 0 {
      ArctanSeriesAtZero(n - 1);
      PowZeroBase(2 * n - 1);
    }
  }

  lemma ArctanAtZero()
    ensures Arctan(0.0) == 0.0
  {
    ArctanSeriesAtZero(ARCTAN_TERMS - 1);
  }

  /** Complementary angles: arctan(x) + arctan(1/x) is pi/2 for x > 0 and
      -pi/2 for x < 0, whichever branch each side takes. */
  lemma ArctanReciprocal(x: real)
    requires x != 0.0
    ensures Arctan(x) + Arctan(1.0 / x) == if x > 0.0 then PI / 2.0 else -PI / 2.0
  {
    var y := 1.0 / x;
    assert 1.0 / y == x;
    if Abs(x) > 1.0 {
      ReciprocalInside(x);
    } else if Abs(x) < 1.0 {
      assert Abs(y) > 1.0 by {
        assert y * x == 1.0;
        if x > 0.0 { assert y > 1.0; } else { assert y < -1.0; }
      }
    } else {
      assert x == 1.0 || x == -1.0;
      assert y == x;
    }
  }
}
