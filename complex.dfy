/** The complex number type: a pair of exact scalars with the textbook field
    operations, integer powers (by repeated multiplication and through polar
    form) and the polar conversions built on the series evaluator. */
module ComplexNumbers {
  import opened Series

  const I32_MIN: int := -0x8000_0000
  const I32_MAX: int := 0x7fff_ffff
  const U64_MODULUS: int := 0x1_0000_0000_0000_0000

  /** The number of cosine terms `from_polar` asks for (the sine ignores it). */
  const POLAR_TERMS: nat := 10

  datatype Complex = Complex(re: real, im: real)

  /** `Complex::new()`: 0 + 0i. */
  const Zero: Complex := Complex(0.0, 0.0)

  /** `Complex::init(1.0, 0.0)`: the start value of every product. */
  const One: Complex := Complex(1.0, 0.0)

  // ---------------------------------------------------------------------------
  // Field operations

  /** `conjugate`: the real part kept, the imaginary part negated. */
  function Conjugate(z: Complex): Complex
  {
    Complex(z.re, -z.im)
  }

  /** The `Add` impl: component-wise. */
  function Add(a: Complex, b: Complex): Complex
  {
    Complex(a.re + b.re, a.im + b.im)
  }

  /** The `Sub` impl: component-wise. */
  function Sub(a: Complex, b: Complex): Complex
  {
    Complex(a.re - b.re, a.im - b.im)
  }

  /** The `Mul` impl: (ac - bd) + (ad + bc)i. */
  function Mul(a: Complex, b: Complex): Complex
  {
    Complex(a.re * b.re - a.im * b.im, a.re * b.im + a.im * b.re)
  }

  /** re^2 + im^2, the denominator of a division. */
  function NormSq(z: Complex): real
  {
    z.re * z.re + z.im * z.im
  }

  /** Division through the conjugate; a zero denominator panics in the source. */
  function Div(a: Complex, b: Complex): Complex
    requires NormSq(b) != 0.0
  {
    var d := NormSq(b);
    Complex((a.re * b.re + a.im * b.im) / d, (a.im * b.re - a.re * b.im) / d)
  }

  lemma ConjugateInvolutive(z: Complex)
    ensures Conjugate(Conjugate(z)) == z
    ensures Conjugate(z).re == z.re && Conjugate(z).im == -z.im
  {
  }

  lemma AddSubCancel(a: Complex, b: Complex)
    ensures Sub(Add(a, b), b) == a
    ensures Add(Sub(a, b), b) == a
  {
  }

  lemma AddLaws(a: Complex, b: Complex, c: Complex)
    ensures Add(a, b) == Add(b, a)
    ensures Add(Add(a, b), c) == Add(a, Add(b, c))
    ensures Add(a, Zero) == a
  {
  }

  lemma MulCommutative(a: Complex, b: Complex)
    ensures Mul(a, b) == Mul(b, a)
  {
  }

  lemma MulAssociative(a: Complex, b: Complex, c: Complex)
    ensures Mul(Mul(a, b), c) == Mul(a, Mul(b, c))
  {
    var ab := Mul(a, b);
    var bc := Mul(b, c);
    calc {
      Mul(ab, c).re;
      (a.re * b.re - a.im * b.im) * c.re - (a.re * b.im + a.im * b.re) * c.im;
      a.re * (b.re * c.re - b.im * c.im) - a.im * (b.re * c.im + b.im * c.re);
      Mul(a, bc).re;
    }
    calc {
      Mul(ab, c).im;
      (a.re * b.re - a.im * b.im) * c.im + (a.re * b.im + a.im * b.re) * c.re;
      a.re * (b.re * c.im + b.im * c.re) + a.im * (b.re * c.re - b.im * c.im);
      Mul(a, bc).im;
    }
  }

  lemma MulDistributes(a: Complex, b: Complex, c: Complex)
    ensures Mul(a, Add(b, c)) == Add(Mul(a, b), Mul(a, c))
  {
  }

  lemma MulOne(z: Complex)
    ensures Mul(z, One) == z && Mul(One, z) == z
  {
  }

  /** The squared norm is multiplicative. */
  lemma NormSqMul(a: Complex, b: Complex)
    ensures NormSq(Mul(a, b)) == NormSq(a) * NormSq(b)
  {
    var p := Mul(a, b);
    calc {
      NormSq(p);
      (a.re * b.re - a.im * b.im) * (a.re * b.re - a.im * b.im)
        + (a.re * b.im + a.im * b.re) * (a.re * b.im + a.im * b.re);
      a.re * a.re * (b.re * b.re) + a.im * a.im * (b.im * b.im)
        + a.re * a.re * (b.im * b.im) + a.im * a.im * (b.re * b.re);
      (a.re * a.re + a.im * a.im) * (b.re * b.re + b.im * b.im);
    }
  }

  lemma ProductPositive(x: real, y: real)
    requires x > 0.0 && y > 0.0
    ensures x * y > 0.0
  {
  }

  lemma SquarePositive(x: real)
    requires x != 0.0
    ensures x * x > 0.0
  {
    if x > 0.0 {
      ProductPositive(x, x);
    } else {
      ProductPositive(-x, -x);
      assert (-x) * (-x) == x * x;
    }
  }

  /** A complex number is zero exactly when its squared norm is. */
  lemma NormSqZero(z: Complex)
    ensures NormSq(z) >= 0.0
    ensures NormSq(z) == 0.0 <==> z == Zero
  {
    SquareNonNegative(z.re);
    SquareNonNegative(z.im);
    calc {
      NormSq(z);
    ==
      z.re * z.re + z.im * z.im;
    >=
      0.0;
    }
    if z != Zero {
      NormSqPositive(z);
    }
  }

  lemma NormSqPositive(z: Complex)
    requires z != Zero
    ensures NormSq(z) > 0.0
  {
    SquareNonNegative(z.re);
    SquareNonNegative(z.im);
    if z.re != 0.0 {
      SquarePositive(z.re);
    } else {
      assert z.im != 0.0;
      SquarePositive(z.im);
    }
    calc {
      NormSq(z);
    ==
      z.re * z.re + z.im * z.im;
    >
      0.0;
    }
  }

  lemma SquareNonNegative(x: real)
    ensures x * x >= 0.0
  {
    if x != 0.0 {
      SquarePositive(x);
    }
  }

  /** No zero divisors: a product of non-zero factors is non-zero. */
  lemma MulNonZero(a: Complex, b: Complex)
    requires a != Zero && b != Zero
    ensures Mul(a, b) != Zero
  {
    NormSqPositive(a);
    NormSqPositive(b);
    ProductPositive(NormSq(a), NormSq(b));
    NormSqMul(a, b);
    calc {
      NormSq(Mul(a, b));
    ==
      NormSq(a) * NormSq(b);
    >
      0.0;
    }
    NormSqZero(Mul(a, b));
  }

  /** Multiplying by z's conjugate gives the real number |z|^2. */
  lemma MulConjugate(z: Complex)
    ensures Mul(z, Conjugate(z)) == Complex(NormSq(z), 0.0)
  {
  }

  lemma ConjugateMul(a: Complex, b: Complex)
    ensures Conjugate(Mul(a, b)) == Mul(Conjugate(a), Conjugate(b))
  {
  }

  /** Under exact arithmetic division undoes multiplication: (a / b) * b = a. */
  lemma DivMulCancel(a: Complex, b: Complex)
    requires NormSq(b) != 0.0
    ensures Mul(Div(a, b), b) == a
  {
    var d := NormSq(b);
    var x := (a.re * b.re + a.im * b.im) / d;
    var y := (a.im * b.re - a.re * b.im) / d;
    assert x * d == a.re * b.re + a.im * b.im;
    assert y * d == a.im * b.re - a.re * b.im;
    calc {
      (x * b.re - y * b.im) * d;
      (a.re * b.re + a.im * b.im) * b.re - (a.im * b.re - a.re * b.im) * b.im;
      a.re * d;
    }
    calc {
      (x * b.im + y * b.re) * d;
      (a.re * b.re + a.im * b.im) * b.im + (a.im * b.re - a.re * b.im) * b.re;
      a.im * d;
    }
  }

  /** And multiplication undoes division: (a * b) / b = a. */
  lemma MulDivCancel(a: Complex, b: Complex)
    requires NormSq(b) != 0.0
    ensures Div(Mul(a, b), b) == a
  {
    var d := NormSq(b);
    var p := Mul(a, b);
    calc {
      p.re * b.re + p.im * b.im;
      (a.re * b.re - a.im * b.im) * b.re + (a.re * b.im + a.im * b.re) * b.im;
      a.re * d;
    }
    calc {
      p.im * b.re - p.re * b.im;
      (a.re * b.im + a.im * b.re) * b.re - (a.re * b.re - a.im * b.im) * b.im;
      a.im * d;
    }
  }

  /** The worked values of the crate's unit tests. */
  lemma UnitTestValues()
    ensures Conjugate(Complex(3.0, 4.0)) == Complex(3.0, -4.0)
    ensures Add(Complex(3.0, 4.0), Complex(1.0, 2.0)) == Complex(4.0, 6.0)
    ensures Sub(Complex(5.0, 7.0), Complex(3.0, 2.0)) == Complex(2.0, 5.0)
    ensures Mul(Complex(1.0, 2.0), Complex(3.0, 4.0)) == Complex(-5.0, 10.0)
    ensures NormSq(Complex(4.0, -3.0)) == 25.0
  {
  }

  lemma UnitTestDivision()
    ensures Div(Complex(3.0, 2.0), Complex(4.0, -3.0)) == Complex(6.0 / 25.0, 17.0 / 25.0)
  {
    assert NormSq(Complex(4.0, -3.0)) == 25.0;
  }

  lemma UnitTestPower()
    ensures CPow(Complex(2.0, 3.0), 5) == Complex(122.0, -597.0)
  {
    var z := Complex(2.0, 3.0);
    assert CPow(z, 1) == z;
    assert CPow(z, 2) == Complex(-5.0, 12.0);
    assert CPow(z, 3) == Complex(-46.0, 9.0);
    assert CPow(z, 4) == Complex(-119.0, -120.0);
  }

  // ---------------------------------------------------------------------------
  // Integer power by repeated multiplication

  /** z^n as the product (((1 * z) * z) ... * z) the source's loop builds. */
  function CPow(z: Complex, n: nat): Complex
  {
    if n == 0 then One else Mul(CPow(z, n - 1), z)
  }

  /** `complex_pow`: multiplies 1 + 0i by `target` `pow` times; for pow <= 0
      the range 0..pow is empty and the result is 1 + 0i. */
  method ComplexPow(target: Complex, pow: int) returns (result: Complex)
    requires I32_MIN <= pow <= I32_MAX
    ensures result == CPow(target, if pow <= 0 then 0 else pow)
  {
    result := One;
    var i := 0;
    while i < pow
      invariant 0 <= i <= (if pow <= 0 then 0 else pow)
      invariant result == CPow(target, i)
    {
      result := Mul(result, target);
      i := i + 1;
    }
  }

  lemma {:induction false} CPowAdd(z: Complex, m: nat, n: nat)
    ensures CPow(z, m + n) == Mul(CPow(z, m), CPow(z, n))
  {
    if n == 0 {
      MulOne(CPow(z, m));
    } else {
      CPowAdd(z, m, n - 1);
      MulAssociative(CPow(z, m), CPow(z, n - 1), z);
    }
  }

  /** |z^n|^2 = (|z|^2)^n */
  lemma {:induction false} CPowNormSq(z: Complex, n: nat)
    ensures NormSq(CPow(z, n)) == Pow(NormSq(z), n)
  {
    if n > 0 {
      CPowNormSq(z, n - 1);
      NormSqMul(CPow(z, n - 1), z);
    }
  }

  lemma {:induction false} CPowConjugate(z: Complex, n: nat)
    ensures CPow(Conjugate(z), n) == Conjugate(CPow(z, n))
  {
    if n > 0 {
      CPowConjugate(z, n - 1);
      ConjugateMul(CPow(z, n - 1), z);
    }
  }

  /** On the real axis the complex power is the scalar power. */
  lemma {:induction false} CPowReal(x: real, n: nat)
    ensures CPow(Complex(x, 0.0), n) == Complex(Pow(x, n), 0.0)
  {
    if n > 0 {
      CPowReal(x, n - 1);
    }
  }

  // ---------------------------------------------------------------------------
  // Polar form

  /** The angle `to_polar` computes: arctan(im / re). */
  function PolarAngle(z: Complex): real
    requires z.re != 0.0
  {
    Arctan(z.im / z.re)
  }

  /** `to_polar`. The magnitude is `BigDecimal::sqrt(re^2 + im^2)`, which is not
      modelled: the caller passes it in, constrained to be that square root. The
      division im / re panics when re = 0. */
  method ToPolar(target: Complex, magnitude: real) returns (r: real, theta: real)
    requires magnitude >= 0.0 && magnitude * magnitude == NormSq(target)
    requires target.re != 0.0
    ensures r == magnitude && r * r == NormSq(target)
    ensures theta == PolarAngle(target)
  {
    r := magnitude;
    theta := CalcArctan(target.im / target.re);
  }

  /** Conjugation negates the polar angle. */
  lemma PolarAngleConjugate(z: Complex)
    requires z.re != 0.0
    ensures PolarAngle(Conjugate(z)) == -PolarAngle(z)
  {
    assert -z.im / z.re == -(z.im / z.re);
    ArctanOdd(z.im / z.re);
  }

  /** The positive real axis has angle 0, the diagonal 1 + i has angle pi/4. */
  lemma PolarAngleValues(x: real)
    requires x != 0.0
    ensures PolarAngle(Complex(x, 0.0)) == 0.0
    ensures PolarAngle(Complex(x, x)) == PI / 4.0
  {
    assert 0.0 / x == 0.0;
    ArctanAtZero();
    assert x / x == 1.0;
  }

  /** What `from_polar(r, theta)` computes: r cos(theta), r sin(theta), with
      the cosine truncated at 10 terms and the sine at its fixed 30. */
  function FromPolarOf(r: real, theta: real): Complex
    requires NormalizableAngle(theta)
  {
    Scaled(r, CosOf(theta, POLAR_TERMS), SinOf(theta))
  }

  /** The point at distance r along the direction (cos, sin). */
  function Scaled(r: real, cos: real, sin: real): Complex
  {
    Complex(r * cos, r * sin)
  }

  method FromPolar(r: real, theta: real) returns (result: Complex)
    requires NormalizableAngle(theta)
    ensures result == FromPolarOf(r, theta)
  {
    var c := CalcCos(theta, POLAR_TERMS);
    var s := CalcSin(theta, POLAR_TERMS);
    result := Scaled(r, c, s);
  }

  /** Negating the angle conjugates the result. */
  lemma FromPolarConjugate(r: real, theta: real)
    requires NormalizableAngle(theta) && NormalizableAngle(-theta)
    ensures FromPolarOf(r, -theta) == Conjugate(FromPolarOf(r, theta))
  {
    CosEvenSinOdd(theta, POLAR_TERMS);
  }

  /** Angle 0 maps the magnitude onto the positive real axis. */
  lemma FromPolarZeroAngle(r: real)
    ensures NormalizableAngle(0.0)
    ensures FromPolarOf(r, 0.0) == Complex(r, 0.0)
  {
    CosSinAtZero(POLAR_TERMS);
  }

  /** `pow as u64`: the u64 congruent to pow modulo 2^64, so a negative i32
      wraps around to pow + 2^64. */
  function AsU64(pow: int): (n: nat)
    requires I32_MIN <= pow <= I32_MAX
    ensures n < U64_MODULUS && (n - pow) % U64_MODULUS == 0
  {
    if pow >= 0 then pow else pow + U64_MODULUS
  }

  /** The angle of a power: `theta * pow`. */
  function ScaleAngle(theta: real, pow: int): real
  {
    theta * pow as real
  }

  lemma ScaleAngleNeg(theta: real, pow: int)
    ensures ScaleAngle(-theta, pow) == -ScaleAngle(theta, pow)
  {
  }

  /** What the polar power `pow(target, pow)` computes: magnitude^(pow as u64)
      at angle arctan(im / re) * pow. */
  function PolarPowOf(target: Complex, pow: int, magnitude: real): Complex
    requires I32_MIN <= pow <= I32_MAX && target.re != 0.0
    requires NormalizableAngle(ScaleAngle(PolarAngle(target), pow))
  {
    FromPolarOf(Pow(magnitude, AsU64(pow)), ScaleAngle(PolarAngle(target), pow))
  }

  /** `pow`: to polar form, raise the magnitude by `fast_pow`, scale the angle,
      and back. */
  method PolarPow(target: Complex, pow: int, magnitude: real) returns (result: Complex)
    requires I32_MIN <= pow <= I32_MAX
    requires magnitude >= 0.0 && magnitude * magnitude == NormSq(target)
    requires target.re != 0.0
    requires NormalizableAngle(ScaleAngle(PolarAngle(target), pow))
    ensures result == PolarPowOf(target, pow, magnitude)
  {
    var r, theta := ToPolar(target, magnitude);
    r := FastPow(r, AsU64(pow));
    theta := ScaleAngle(theta, pow);
    result := FromPolar(r, theta);
  }

  /** The zeroth polar power is exactly 1 + 0i. */
  lemma PolarPowZero(target: Complex, magnitude: real)
    requires target.re != 0.0
    ensures NormalizableAngle(ScaleAngle(PolarAngle(target), 0))
    ensures PolarPowOf(target, 0, magnitude) == One
  {
    FromPolarZeroAngle(1.0);
  }

  /** Conjugating the base conjugates the polar power. */
  lemma PolarPowConjugate(target: Complex, pow: int, magnitude: real)
    requires I32_MIN <= pow <= I32_MAX && target.re != 0.0
    requires NormalizableAngle(ScaleAngle(PolarAngle(target), pow))
    requires NormalizableAngle(-ScaleAngle(PolarAngle(target), pow))
    ensures NormalizableAngle(ScaleAngle(PolarAngle(Conjugate(target)), pow))
    ensures PolarPowOf(Conjugate(target), pow, magnitude) == Conjugate(PolarPowOf(target, pow, magnitude))
  {
    var a := PolarAngle(target);
    PolarAngleConjugate(target);
    ScaleAngleNeg(a, pow);
    FromPolarConjugate(Pow(magnitude, AsU64(pow)), ScaleAngle(a, pow));
  }

  lemma SquareMonotone(a: real, b: real)
    requires 0.0 <= a < b
    ensures a * a < b * b
  {
    var d := b - a;
    assert a * d >= 0.0;
    ProductPositive(b, d);
    assert b * b - a * a == a * d + b * d;
  }

  /** On the positive real axis the two power methods agree exactly for
      non-negative exponents: the polar path reduces to fast_pow of the real part. */
  lemma PowersAgreeOnPositiveReals(x: real, pow: int, magnitude: real)
    requires 0 <= pow <= I32_MAX && x > 0.0
    requires magnitude >= 0.0 && magnitude * magnitude == NormSq(Complex(x, 0.0))
    ensures NormalizableAngle(ScaleAngle(PolarAngle(Complex(x, 0.0)), pow))
    ensures PolarPowOf(Complex(x, 0.0), pow, magnitude) == CPow(Complex(x, 0.0), pow)
  {
    PolarAngleValues(x);
    assert ScaleAngle(0.0, pow) == 0.0;
    if magnitude < x {
      SquareMonotone(magnitude, x);
    } else if x < magnitude {
      SquareMonotone(x, magnitude);
    }
    assert magnitude == x;
    FromPolarZeroAngle(Pow(x, pow));
    CPowReal(x, pow);
  }

  /** `to_polar` takes arctan(im / re) with no quadrant correction, so z and -z
      get the same angle and the left half-plane is folded onto the right. */
  lemma PolarAngleOpposite(z: Complex)
    requires z.re != 0.0
    ensures PolarAngle(Complex(-z.re, -z.im)) == PolarAngle(z)
  {
    assert -z.im / -z.re == z.im / z.re;
  }

  /** On the negative real axis the first polar power of x + 0i is -x + 0i,
      the mirror image, while repeated multiplication gives x + 0i back. */
  lemma PolarPowLosesSign(x: real)
    requires x < 0.0
    ensures NormalizableAngle(ScaleAngle(PolarAngle(Complex(x, 0.0)), 1))
    ensures PolarPowOf(Complex(x, 0.0), 1, -x) == Complex(-x, 0.0)
    ensures CPow(Complex(x, 0.0), 1) == Complex(x, 0.0)
    ensures Complex(-x, 0.0) != Complex(x, 0.0)
  {
    assert 0.0 / x == 0.0;
    ArctanAtZero();
    assert ScaleAngle(0.0, 1) == 0.0;
    assert Pow(-x, 1) == -x * Pow(-x, 0);
    FromPolarZeroAngle(-x);
    MulOne(Complex(x, 0.0));
  }

  /** The polar angle with the quadrant taken into account, as atan2 does:
      half a turn is added or subtracted in the left half-plane, and the
      imaginary axis gets +-pi/2 instead of a division by zero. */
  function QuadrantAngle(z: Complex): real
  {
    if z.re > 0.0 then PolarAngle(z)
    else if z.re < 0.0 then
      (if z.im >= 0.0 then PolarAngle(z) + PI else PolarAngle(z) - PI)
    else if z.im > 0.0 then PI / 2.0
    else if z.im < 0.0 then -PI / 2.0
    else 0.0
  }

  /** Off the negative real axis, where the angle is pi, conjugation negates
      the corrected angle, as PolarAngleConjugate states for the angle as
      written. */
  lemma QuadrantAngleConjugate(z: Complex)
    requires !(z.re < 0.0 && z.im == 0.0)
    ensures QuadrantAngle(Conjugate(z)) == -QuadrantAngle(z)
  {
    if z.re != 0.0 {
      PolarAngleConjugate(z);
    }
  }

  /** Opposite non-zero points are half a turn apart under the corrected
      angle, where the angle as written gives them the same value. */
  lemma QuadrantAngleOpposite(z: Complex)
    requires z != Zero
    ensures QuadrantAngle(Complex(-z.re, -z.im)) == QuadrantAngle(z) + PI
         || QuadrantAngle(Complex(-z.re, -z.im)) == QuadrantAngle(z) - PI
  {
    if z.re != 0.0 {
      PolarAngleOpposite(z);
    }
  }
}
