/**
 * The scalar of the complex half of the library, `ComplexDouble`, as an exact
 * pair of reals. Only the field operations are modelled: sum, difference,
 * product, quotient, scaling by a real and conjugation.
 */
module ComplexNumbers {

  datatype Complex = Complex(re: real, im: real)

  const Zero := Complex(0.0, 0.0)
  const One := Complex(1.0, 0.0)

  /** A real number seen as a complex one (the `.R` extension). */
  function FromReal(x: real): Complex { Complex(x, 0.0) }

  function Neg(x: Complex): Complex { Complex(-x.re, -x.im) }

  function Add(x: Complex, y: Complex): Complex { Complex(x.re + y.re, x.im + y.im) }

  function Sub(x: Complex, y: Complex): (r: Complex)
    ensures Add(r, y) == x
  {
    Complex(x.re - y.re, x.im - y.im)
  }

  function Mul(x: Complex, y: Complex): Complex {
    Complex(x.re * y.re - x.im * y.im, x.re * y.im + x.im * y.re)
  }

  /** Multiplication by a real `Number`. */
  function Scale(x: Complex, f: real): (r: Complex)
    ensures r == Mul(x, FromReal(f))
  {
    Complex(x.re * f, x.im * f)
  }

  function Conj(x: Complex): Complex { Complex(x.re, -x.im) }

  /** A real product, kept behind a name so that sign facts about it are reused. */
  function Product(a: real, b: real): real { a * b }

  lemma ProductSign(a: real, b: real)
    ensures a > 0.0 && b > 0.0 ==> Product(a, b) > 0.0
    ensures a < 0.0 && b < 0.0 ==> Product(a, b) > 0.0
    ensures a == 0.0 ==> Product(a, b) == 0.0
  {}

  function Square(a: real): real { Product(a, a) }

  lemma SquareSign(a: real)
    ensures Square(a) >= 0.0
    ensures a != 0.0 ==> Square(a) > 0.0
  {
    ProductSign(a, a);
  }

  /** re² + im², the square of `abs()`. */
  function NormSq(x: Complex): real { Square(x.re) + Square(x.im) }

  /** Only zero has a zero squared modulus. */
  lemma NormSqPositive(x: Complex)
    ensures x == Zero ==> NormSq(x) == 0.0
    ensures x != Zero ==> NormSq(x) > 0.0
  {
    SquareSign(x.re);
    SquareSign(x.im);
  }

  /** A real quotient by a positive divisor. */
  function Over(a: real, n: real): (r: real)
    requires n > 0.0
    ensures r * n == a
  {
    a / n
  }

  /** Division as the source computes it: x·conj(y) / (re² + im²). */
  function Div(x: Complex, y: Complex): (r: Complex)
    requires y != Zero
    ensures Mul(r, y) == x
  {
    NormSqPositive(y);
    var n := NormSq(y);
    var p := Mul(x, Conj(y));
    var r := Complex(Over(p.re, n), Over(p.im, n));
    assert n == y.re * y.re + y.im * y.im;
    DivCancels(x, y, r, n);
    r
  }

  lemma DivCancels(x: Complex, y: Complex, r: Complex, n: real)
    requires n == y.re * y.re + y.im * y.im && n > 0.0
    requires r.re * n == Mul(x, Conj(y)).re && r.im * n == Mul(x, Conj(y)).im
    ensures Mul(r, y) == x
  {
    var a, b, c, d := x.re, x.im, y.re, y.im;
    assert r.re * n == a * c + b * d;
    assert r.im * n == b * c - a * d;
    calc {
      Mul(r, y).re * n;
      (r.re * c - r.im * d) * n;
      (r.re * n) * c - (r.im * n) * d;
      (a * c + b * d) * c - (b * c - a * d) * d;
      a * n;
    }
    calc {
      Mul(r, y).im * n;
      (r.re * d + r.im * c) * n;
      (r.re * n) * d + (r.im * n) * c;
      (a * c + b * d) * d + (b * c - a * d) * c;
      b * n;
    }
    Cancel(Mul(r, y).re, a, n);
    Cancel(Mul(r, y).im, b, n);
  }

  lemma Cancel(u: real, v: real, n: real)
    requires n != 0.0 && u * n == v * n
    ensures u == v
  {
    assert (u - v) * n == 0.0;
  }

  // Laws of the field operations used by the matrix algorithms.

  lemma AddComm(x: Complex, y: Complex)
    ensures Add(x, y) == Add(y, x)
  {}

  lemma MulComm(x: Complex, y: Complex)
    ensures Mul(x, y) == Mul(y, x)
  {}

  lemma MulAssoc(x: Complex, y: Complex, z: Complex)
    ensures Mul(Mul(x, y), z) == Mul(x, Mul(y, z))
  {
    var a, b, c, d, e, f := x.re, x.im, y.re, y.im, z.re, z.im;
    assert (a * c - b * d) * e - (a * d + b * c) * f == a * (c * e - d * f) - b * (c * f + d * e);
    assert (a * c - b * d) * f + (a * d + b * c) * e == a * (c * f + d * e) + b * (c * e - d * f);
  }

  lemma MulAddDistr(x: Complex, y: Complex, z: Complex)
    ensures Mul(x, Add(y, z)) == Add(Mul(x, y), Mul(x, z))
  {
    var a, b := x.re, x.im;
    assert a * (y.re + z.re) - b * (y.im + z.im) == (a * y.re - b * y.im) + (a * z.re - b * z.im);
    assert a * (y.im + z.im) + b * (y.re + z.re) == (a * y.im + b * y.re) + (a * z.im + b * z.re);
  }

  lemma ConjInvolutive(x: Complex)
    ensures Conj(Conj(x)) == x
  {}

  lemma {:induction false} ConjMul(x: Complex, y: Complex)
    ensures Conj(Mul(x, y)) == Mul(Conj(x), Conj(y))
  {
    assert -(x.re * y.im + x.im * y.re) == x.re * (-y.im) + (-x.im) * y.re;
  }

  /** z·conj(z) is the real number re² + im², the divisor `div` uses. */
  lemma MulConjIsNormSq(x: Complex)
    ensures Mul(x, Conj(x)) == FromReal(NormSq(x))
  {
    assert x.im * x.re + x.re * (-x.im) == 0.0;
  }

  /** The embedding of the reals preserves the field operations. */
  lemma FromRealHom(a: real, b: real)
    ensures Add(FromReal(a), FromReal(b)) == FromReal(a + b)
    ensures Sub(FromReal(a), FromReal(b)) == FromReal(a - b)
    ensures Mul(FromReal(a), FromReal(b)) == FromReal(a * b)
    ensures Neg(FromReal(a)) == FromReal(-a)
    ensures b != 0.0 ==> Div(FromReal(a), FromReal(b)) == FromReal(a / b)
  {
    if b != 0.0 {
      var q := Div(FromReal(a), FromReal(b));
      assert Mul(q, FromReal(b)) == FromReal(a);
      assert q.re * b == a && q.im * b == 0.0;
    }
  }
}
