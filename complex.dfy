/** Exact complex arithmetic standing in for `complex<double>`.

    A complex number is a pair of reals, so the algebra is exact. The
    modulus `abs` is replaced by its square, which orders numbers the same
    way and needs no square root.

    Every operation that multiplies or divides (`Times`, `Quot`, `Mul`,
    `NormSq`) is paired with a `...Raw` twin holding the arithmetic, and the
    two call each other at a `depth` that defaults to 1 and drops straight
    to 0. Unfolding such an operation once only reaches its twin at depth 0,
    so elsewhere in the model a product is a value of its own; the laws
    proved in this module (which unfold it on purpose) are the facts the
    rest of the model relies on. Since no call goes below depth 0, products
    of constants evaluate in finitely many steps. */
module ComplexNumbers {

  datatype Complex = Complex(re: real, im: real)

  const Zero: Complex := Complex(0.0, 0.0)
  const One: Complex := Complex(1.0, 0.0)

  function FromReal(r: real): Complex { Complex(r, 0.0) }

  function Add(a: Complex, b: Complex): Complex { Complex(a.re + b.re, a.im + b.im) }

  function Sub(a: Complex, b: Complex): Complex { Complex(a.re - b.re, a.im - b.im) }

  function Conj(a: Complex): Complex { Complex(a.re, -a.im) }

  /** The product of two reals. */
  function Times(x: real, y: real, depth: nat := 1): real
    decreases depth, 1
  {
    if depth == 0 then TimesRaw(x, y, 0) else Times(x, y, 0)
  }

  function TimesRaw(x: real, y: real, depth: nat): real
    decreases depth, 0
  {
    if depth == 0 then x * y else Times(x, y, 0)
  }

  /** The quotient of two reals. */
  function Quot(x: real, y: real, depth: nat := 1): real
    requires y != 0.0
    decreases depth, 1
  {
    if depth == 0 then QuotRaw(x, y, 0) else Quot(x, y, 0)
  }

  function QuotRaw(x: real, y: real, depth: nat): real
    requires y != 0.0
    decreases depth, 0
  {
    if depth == 0 then x / y else Quot(x, y, 0)
  }

  /** The complex product. */
  function Mul(a: Complex, b: Complex, depth: nat := 1): Complex
    decreases depth, 1
  {
    if depth == 0 then MulRaw(a, b, 0) else Mul(a, b, 0)
  }

  function MulRaw(a: Complex, b: Complex, depth: nat): Complex
    decreases depth, 0
  {
    if depth == 0 then
      Complex(Times(a.re, b.re) - Times(a.im, b.im), Times(a.re, b.im) + Times(a.im, b.re))
    else Mul(a, b, 0)
  }

  /** The squared modulus |z|^2 = re^2 + im^2. */
  function NormSq(z: Complex, depth: nat := 1): real
    decreases depth, 1
  {
    if depth == 0 then NormSqRaw(z, 0) else NormSq(z, 0)
  }

  function NormSqRaw(z: Complex, depth: nat): real
    decreases depth, 0
  {
    if depth == 0 then Times(z.re, z.re) + Times(z.im, z.im) else NormSq(z, 0)
  }

  /** The multiplicative inverse conj(z) / |z|^2 of a nonzero number. */
  function Inv(z: Complex): (r: Complex)
    requires z != Zero
    ensures Mul(z, r) == One
  {
    NormSqSign(z);
    var r := Complex(Quot(z.re, NormSq(z)), Quot(-z.im, NormSq(z)));
    MulInvStep(z, r);
    r
  }

  /** Complex division a / b, as a times the inverse of b: multiplying the
      quotient back by b gives a, and the quotient is zero exactly when a is. */
  function Div(a: Complex, b: Complex): (r: Complex)
    requires b != Zero
    ensures Mul(b, r) == a
    ensures r == Zero <==> a == Zero
  {
    QuotientLaws(a, b);
    Mul(a, Inv(b))
  }

  // ---- Opening the arithmetic ----

  lemma TimesDef(x: real, y: real)
    ensures Times(x, y) == x * y
  {
    assert Times(x, y, 1) == Times(x, y, 0) == TimesRaw(x, y, 0);
  }

  lemma QuotDef(x: real, y: real)
    requires y != 0.0
    ensures Quot(x, y) == x / y
  {
    assert Quot(x, y, 1) == Quot(x, y, 0) == QuotRaw(x, y, 0);
  }

  lemma MulUnfold(a: Complex, b: Complex)
    ensures Mul(a, b) == Complex(Times(a.re, b.re) - Times(a.im, b.im), Times(a.re, b.im) + Times(a.im, b.re))
  {
    assert Mul(a, b, 1) == Mul(a, b, 0) == MulRaw(a, b, 0);
  }

  lemma NormSqUnfold(z: Complex)
    ensures NormSq(z) == Times(z.re, z.re) + Times(z.im, z.im)
  {
    assert NormSq(z, 1) == NormSq(z, 0) == NormSqRaw(z, 0);
  }

  // ---- Real products ----

  lemma TimesComm(x: real, y: real)
    ensures Times(x, y) == Times(y, x)
  {
    TimesDef(x, y);
    TimesDef(y, x);
  }

  lemma TimesZero(x: real)
    ensures Times(x, 0.0) == 0.0 && Times(0.0, x) == 0.0
  {
    TimesDef(x, 0.0);
    TimesDef(0.0, x);
  }

  lemma TimesOne(x: real)
    ensures Times(x, 1.0) == x && Times(1.0, x) == x
  {
    TimesDef(x, 1.0);
    TimesDef(1.0, x);
  }

  lemma TimesNeg(x: real, y: real)
    ensures Times(x, -y) == -Times(x, y) && Times(-x, y) == -Times(x, y)
  {
    TimesDef(x, -y);
    TimesDef(-x, y);
    TimesDef(x, y);
  }

  lemma TimesPositive(x: real, y: real)
    requires (x > 0.0 && y > 0.0) || (x < 0.0 && y < 0.0)
    ensures Times(x, y) > 0.0
  {
    TimesDef(x, y);
  }

  lemma TimesNonneg(x: real, y: real)
    requires x >= 0.0 && y >= 0.0
    ensures Times(x, y) >= 0.0
  {
    if x == 0.0 || y == 0.0 {
      TimesZero(x);
      TimesZero(y);
    } else {
      TimesPositive(x, y);
    }
  }

  /** A square is never negative and vanishes only at zero. */
  lemma SquareSign(x: real)
    ensures Times(x, x) >= 0.0
    ensures Times(x, x) == 0.0 <==> x == 0.0
  {
    if x < 0.0 || x > 0.0 {
      TimesPositive(x, x);
    } else {
      TimesZero(x);
    }
  }

  lemma TimesSub(x: real, y: real, z: real)
    ensures Times(x, y - z) == Times(x, y) - Times(x, z)
    ensures Times(y - z, x) == Times(y, x) - Times(z, x)
  {
    TimesDef(x, y - z);
    TimesDef(x, y);
    TimesDef(x, z);
    TimesDef(y - z, x);
    TimesDef(y, x);
    TimesDef(z, x);
  }

  /** Between non-negative reals, squaring keeps strict order. */
  lemma SquareMonotone(d: real, e: real)
    requires 0.0 <= d < e
    ensures Times(d, d) < Times(e, e)
  {
    TimesSub(d, e, d);
    TimesNonneg(d, e - d);
    TimesSub(e, e, d);
    TimesPositive(e - d, e);
    TimesComm(d, e);
  }

  /** A non-negative d is below `bound` exactly when bound is positive and
      d^2 is below bound^2: comparing a modulus with a tolerance can be done
      on squares. */
  lemma SquareCompare(d: real, bound: real)
    requires d >= 0.0
    ensures d < bound <==> bound > 0.0 && Times(d, d) < Times(bound, bound)
  {
    if d < bound {
      SquareMonotone(d, bound);
    } else if bound > 0.0 {
      if bound < d {
        SquareMonotone(bound, d);
      }
    }
  }

  lemma QuotPositive(x: real, y: real)
    requires x > 0.0 && y > 0.0
    ensures Quot(x, y) > 0.0
  {
    QuotDef(x, y);
  }

  /** |z|^2 is never negative and vanishes only at zero. */
  lemma NormSqSign(z: Complex)
    ensures NormSq(z) >= 0.0
    ensures NormSq(z) == 0.0 <==> z == Zero
  {
    NormSqUnfold(z);
    SquareSign(z.re);
    SquareSign(z.im);
  }

  // ---- Complex products ----

  lemma MulComm(x: Complex, y: Complex)
    ensures Mul(x, y) == Mul(y, x)
  {
    MulUnfold(x, y);
    MulUnfold(y, x);
    TimesComm(x.re, y.re);
    TimesComm(x.im, y.im);
    TimesComm(x.re, y.im);
    TimesComm(x.im, y.re);
  }

  lemma MulOne(a: Complex)
    ensures Mul(a, One) == a && Mul(One, a) == a
  {
    MulUnfold(a, One);
    MulUnfold(One, a);
    TimesOne(a.re);
    TimesOne(a.im);
    TimesZero(a.re);
    TimesZero(a.im);
  }

  lemma MulZero(a: Complex)
    ensures Mul(a, Zero) == Zero && Mul(Zero, a) == Zero
  {
    MulUnfold(a, Zero);
    MulUnfold(Zero, a);
    TimesZero(a.re);
    TimesZero(a.im);
  }

  lemma MulAssocComm(x: Complex, y: Complex, z: Complex)
    ensures Mul(x, Mul(y, z)) == Mul(y, Mul(x, z))
  {
    var yz := Mul(y, z);
    var xz := Mul(x, z);
    MulUnfold(y, z);
    MulUnfold(x, z);
    MulUnfold(x, yz);
    MulUnfold(y, xz);
    TimesDef(y.re, z.re); TimesDef(y.im, z.im); TimesDef(y.re, z.im); TimesDef(y.im, z.re);
    TimesDef(x.re, z.re); TimesDef(x.im, z.im); TimesDef(x.re, z.im); TimesDef(x.im, z.re);
    TimesDef(x.re, yz.re); TimesDef(x.im, yz.im); TimesDef(x.re, yz.im); TimesDef(x.im, yz.re);
    TimesDef(y.re, xz.re); TimesDef(y.im, xz.im); TimesDef(y.re, xz.im); TimesDef(y.im, xz.re);
    assert Mul(x, yz).re == Mul(y, xz).re;
    assert Mul(x, yz).im == Mul(y, xz).im;
  }

  lemma MulInvStep(z: Complex, r: Complex)
    requires z != Zero
    requires NormSq(z) != 0.0
    requires r == Complex(Quot(z.re, NormSq(z)), Quot(-z.im, NormSq(z)))
    ensures Mul(z, r) == One
  {
    var n := NormSq(z);
    NormSqUnfold(z);
    TimesDef(z.re, z.re);
    TimesDef(z.im, z.im);
    QuotDef(z.re, n);
    QuotDef(-z.im, n);
    MulUnfold(z, r);
    TimesDef(z.re, r.re);
    TimesDef(z.im, r.im);
    TimesDef(z.re, r.im);
    TimesDef(z.im, r.re);
    InverseRe(z.re, z.im, n);
    InverseIm(z.re, z.im, n);
  }

  lemma InverseRe(x: real, y: real, n: real)
    requires n == x * x + y * y && n != 0.0
    ensures x * (x / n) - y * (-y / n) == 1.0
  {
    assert x * (x / n) == (x * x) / n;
    assert y * (-y / n) == -((y * y) / n);
    assert (x * x) / n + (y * y) / n == n / n;
  }

  lemma InverseIm(x: real, y: real, n: real)
    requires n != 0.0
    ensures x * (-y / n) + y * (x / n) == 0.0
  {
    assert x * (-y / n) == -((x * y) / n);
    assert y * (x / n) == (x * y) / n;
  }

  /** Multiplying by 1 / p and then by p gives back the number. */
  lemma Cancel(x: Complex, p: Complex)
    requires p != Zero
    ensures Mul(Mul(x, Div(One, p)), p) == x
  {
    var d := Div(One, p);
    MulComm(Mul(x, d), p);
    MulAssocComm(p, x, d);
    MulOne(x);
  }

  lemma QuotientLaws(a: Complex, b: Complex)
    requires b != Zero
    ensures Mul(b, Mul(a, Inv(b))) == a
    ensures Mul(a, Inv(b)) == Zero <==> a == Zero
  {
    MulAssocComm(b, a, Inv(b));
    MulOne(a);
    if Mul(a, Inv(b)) == Zero {
      MulZero(b);
    }
    if a == Zero {
      MulZero(Inv(b));
    }
  }

  /** z times its conjugate is the real number |z|^2. */
  lemma MulConjSelf(z: Complex)
    ensures Mul(z, Conj(z)) == FromReal(NormSq(z))
  {
    MulUnfold(z, Conj(z));
    NormSqUnfold(z);
    TimesNeg(z.re, z.im);
    TimesNeg(z.im, z.im);
    TimesComm(z.re, z.im);
  }

  /** conj(x conj(y)) = y conj(x). */
  lemma ConjMulConj(x: Complex, y: Complex)
    ensures Conj(Mul(x, Conj(y))) == Mul(y, Conj(x))
  {
    MulUnfold(x, Conj(y));
    MulUnfold(y, Conj(x));
    TimesNeg(x.re, y.im);
    TimesNeg(x.im, y.im);
    TimesNeg(y.re, x.im);
    TimesNeg(y.im, x.im);
    TimesComm(x.re, y.re);
    TimesComm(x.im, y.im);
    TimesComm(x.re, y.im);
    TimesComm(x.im, y.re);
  }
}
