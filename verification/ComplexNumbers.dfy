/** Exact complex arithmetic: the pairs `double [2]` of the transform code, over `real`. */
module ComplexNumbers {
  import opened Rings
  import opened Fourier

  datatype Complex = Complex(re: real, im: real)

  function Plus(a: Complex, b: Complex): Complex { Complex(a.re + b.re, a.im + b.im) }

  function Negated(a: Complex): Complex { Complex(-a.re, -a.im) }

  function Product(a: Complex, b: Complex): Complex {
    Complex(a.re * b.re - a.im * b.im, a.re * b.im + a.im * b.re)
  }

  function Conj(a: Complex): Complex { Complex(a.re, -a.im) }

  /** The squared modulus. */
  function Norm(a: Complex): real { a.re * a.re + a.im * a.im }

  ghost function Field(): Ring<Complex> {
    Ring(Complex(0.0, 0.0), Complex(1.0, 0.0), Plus, Negated, Product)
  }

  lemma ProductAssociative(a: Complex, b: Complex, c: Complex)
    ensures Product(Product(a, b), c) == Product(a, Product(b, c))
  {}

  lemma ProductDistributes(a: Complex, b: Complex, c: Complex)
    ensures Product(a, Plus(b, c)) == Plus(Product(a, b), Product(a, c))
  {}

  lemma FieldIsCommutative()
    ensures Commutative(Field())
  {
    forall t: (Complex, Complex, Complex)
      ensures Law(Field(), t)
    {
      ProductAssociative(t.0, t.1, t.2);
      ProductDistributes(t.0, t.1, t.2);
    }
  }

  /** The ring operations at two values are the complex ones. */
  ghost predicate OperationsAt(R: Ring<Complex>, a: Complex, b: Complex) {
    && R.add(a, b) == Plus(a, b)
    && R.Sub(a, b) == Plus(a, Negated(b))
    && R.mul(a, b) == Product(a, b)
  }

  /** R is the complex field. Proofs name the pair of values at which they need its operations. */
  ghost predicate IsComplexField(R: Ring<Complex>) {
    && Commutative(R)
    && forall a, b {:trigger OperationsAt(R, a, b)} :: OperationsAt(R, a, b)
  }

  lemma FieldIsComplexField()
    ensures IsComplexField(Field())
  {
    FieldIsCommutative();
  }

  lemma OneIsComplex(R: Ring<Complex>)
    requires IsComplexField(R)
    ensures R.one == Complex(1.0, 0.0)
  {
    var one := Complex(1.0, 0.0);
    assert Law(R, (one, R.one, R.one)) && OperationsAt(R, one, R.one);
  }

  lemma ZeroIsComplex(R: Ring<Complex>)
    requires IsComplexField(R)
    ensures R.zero == Complex(0.0, 0.0)
  {
    var zero := Complex(0.0, 0.0);
    assert Law(R, (zero, R.zero, R.zero)) && OperationsAt(R, zero, R.zero);
  }

  lemma ConstantsAreComplex(R: Ring<Complex>)
    requires IsComplexField(R)
    ensures R.one == Complex(1.0, 0.0) && R.zero == Complex(0.0, 0.0)
    ensures R.neg(R.one) == Complex(-1.0, 0.0)
  {
    OneIsComplex(R);
    ZeroIsComplex(R);
    var one := R.one;
    assert R.add(one, R.neg(one)) == R.zero by { assert Law(R, (one, one, one)); }
    assert Plus(one, R.neg(one)) == R.zero by { assert OperationsAt(R, one, R.neg(one)); }
  }

  lemma ConjIsConjugation(R: Ring<Complex>)
    requires IsComplexField(R)
    ensures Conjugation(R, Conj)
  {
    ConstantsAreComplex(R);
    forall t: (Complex, Complex)
      ensures ConjugateLaw(R, Conj, t)
    {
      assert OperationsAt(R, t.0, t.1) && OperationsAt(R, Conj(t.0), Conj(t.1));
    }
  }

  lemma NormOfProduct(a: Complex, b: Complex)
    ensures Norm(Product(a, b)) == Norm(a) * Norm(b)
  {}

  lemma UnitSquare(r: real)
    requires r >= 0.0
    ensures r * r == 1.0 <==> r == 1.0
  {
    if r < 1.0 {
      assert r * r <= r * 1.0;
    } else if r > 1.0 {
      assert r * r >= r * 1.0;
    }
  }

  /** Modulus one is inherited by roots of power-of-two order. */
  lemma {:induction false} UnitRootOfUnit(R: Ring<Complex>, w: Complex, n: nat)
    requires IsComplexField(R) && IsPowerOfTwo(n) && Norm(Pow(R, w, n)) == 1.0
    ensures Norm(w) == 1.0
    decreases n
  {
    if n == 1 {
      assert Law(R, (w, R.one, w));
      assert Pow(R, w, 1) == R.mul(w, Pow(R, w, 0));
    } else {
      var h := Pow(R, w, n / 2);
      PowAdd(R, w, n / 2, n / 2);
      assert OperationsAt(R, h, h);
      NormOfProduct(h, h);
      UnitSquare(Norm(h));
      UnitRootOfUnit(R, w, n / 2);
    }
  }

  /** A principal root lies on the unit circle, so its conjugate is its inverse. */
  lemma ConjIsInverse(R: Ring<Complex>, w: Complex, N: nat)
    requires IsComplexField(R) && PrincipalRoot(R, w, N)
    ensures R.mul(w, Conj(w)) == R.one
  {
    ConstantsAreComplex(R);
    UnitRootOfUnit(R, w, N / 2);
    assert OperationsAt(R, w, Conj(w));
  }

  lemma ScaleStep(r: real, a: Complex)
    ensures Plus(Complex(r * a.re, r * a.im), a) == Complex((r + 1.0) * a.re, (r + 1.0) * a.im)
  {}

  lemma {:induction false} TimesIsScale(R: Ring<Complex>, n: nat, r: real, a: Complex)
    requires IsComplexField(R) && r == n as real
    ensures Times(R, n, a) == Complex(r * a.re, r * a.im)
    decreases n
  {
    if n == 0 {
      ConstantsAreComplex(R);
    } else {
      var q := r - 1.0;
      TimesIsScale(R, n - 1, q, a);
      ScaleStep(q, a);
      assert OperationsAt(R, Times(R, n - 1, a), a);
    }
  }

  /** 1/N as a complex number. */
  function Nth(N: nat): Complex
    requires N > 0
  {
    Complex(1.0 / N as real, 0.0)
  }

  function DividedBy(c: Complex, n: real): Complex
    requires n != 0.0
  {
    Complex(c.re / n, c.im / n)
  }

  lemma DivisionIsProduct(c: Complex, N: nat)
    requires N > 0
    ensures DividedBy(c, N as real) == Product(Nth(N), c)
  {}

  lemma ComplexInverses(R: Ring<Complex>, w: Complex, N: nat)
    requires IsComplexField(R) && PrincipalRoot(R, w, N)
    ensures Inverses(R, w, Conj(w), N, Nth(N))
  {
    ConjIsInverse(R, w, N);
    ConstantsAreComplex(R);
    TimesIsScale(R, N, N as real, R.one);
    assert OperationsAt(R, Nth(N), Times(R, N, R.one));
  }
}
