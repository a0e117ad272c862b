/** The hypotheses on the root and on the library functions can be met. */
module RootInstances {
  import opened Rings
  import opened Fourier
  import opened ComplexNumbers
  import opened Fft

  // ----- Four points over the complex numbers, with w == -i -----

  const QUARTER_TURN: real := 1.570796326794896619231321691639751442098575

  /** Agrees with the cosine at the angles 0 and a quarter turn, and is no cosine elsewhere. */
  function QuarterCosine(angle: real): real {
    if angle == 0.0 then 1.0 else if angle == QUARTER_TURN then 0.0 else 2.0
  }

  function QuarterSine(angle: real): real {
    if angle == 0.0 then 0.0 else if angle == QUARTER_TURN then 1.0 else 2.0
  }

  lemma FirstPowers(R: Ring<Complex>, w: Complex)
    requires IsComplexField(R)
    ensures Pow(R, w, 0) == Complex(1.0, 0.0) && Pow(R, w, 1) == w && Pow(R, w, 2) == Product(w, w)
  {
    ConstantsAreComplex(R);
    assert Law(R, (w, R.one, w));
    assert Pow(R, w, 1) == R.mul(w, Pow(R, w, 0));
    assert Pow(R, w, 2) == R.mul(w, Pow(R, w, 1));
    assert OperationsAt(R, w, w);
  }

  lemma FourPointsExactIn(R: Ring<Complex>)
    requires IsComplexField(R)
    ensures Exact(R, QuarterCosine, QuarterSine, Complex(0.0, -1.0), 4)
  {
    var w := Complex(0.0, -1.0);
    FirstPowers(R, w);
    ConstantsAreComplex(R);
    assert IsPowerOfTwo(4) by { assert IsPowerOfTwo(2); }
    forall k: nat | k < 2
      ensures Twiddle(QuarterCosine, QuarterSine, k, 4) == Pow(R, w, k)
    {
      QuarterTwiddle(k);
    }
  }

  lemma FourPointsExact()
    ensures Exact(Field(), QuarterCosine, QuarterSine, Complex(0.0, -1.0), 4)
  {
    FieldIsComplexField();
    FourPointsExactIn(Field());
  }

  lemma QuarterTwiddle(k: nat)
    requires k < 2
    ensures Twiddle(QuarterCosine, QuarterSine, k, 4) == if k == 0 then Complex(1.0, 0.0) else Complex(0.0, -1.0)
  {
    var angle := TWO_PI * k as real / 4.0;
    if k == 0 {
      assert angle == 0.0;
    } else {
      assert angle == QUARTER_TURN;
    }
  }

  // ----- Sixteen points over the integers modulo 17, with w == 3 -----

  type Residue = n: int | 0 <= n < 17

  function AddMod(a: Residue, b: Residue): Residue { if a + b < 17 then a + b else a + b - 17 }
  function NegMod(a: Residue): Residue { if a == 0 then 0 else 17 - a }
  function MulMod(a: Residue, b: Residue): Residue { a * b % 17 }

  ghost function ModRing(): Ring<Residue> { Ring(0, 1, AddMod, NegMod, MulMod) }

  lemma ReduceFactor(x: int, c: int)
    ensures (x % 17) * c % 17 == x * c % 17
  {
    var q, r := x / 17, x % 17;
    assert x * c == 17 * (q * c) + r * c;
  }

  lemma ReduceSum(x: int, y: int)
    ensures AddMod(x % 17, y % 17) == (x + y) % 17
  {}

  lemma ModAssociates(a: Residue, b: Residue, c: Residue)
    ensures MulMod(MulMod(a, b), c) == MulMod(a, MulMod(b, c))
  {
    ReduceFactor(a * b, c);
    ReduceFactor(b * c, a);
    Rotate3(a, b, c);
    Swap(a, MulMod(b, c));
  }

  lemma Rotate3(a: int, b: int, c: int)
    ensures a * b * c == b * c * a
  {}

  lemma Swap(a: int, b: int)
    ensures a * b == b * a
  {}

  lemma ModDistributes(a: Residue, b: Residue, c: Residue)
    ensures MulMod(a, AddMod(b, c)) == AddMod(MulMod(a, b), MulMod(a, c))
  {
    var x, y, z := a * b, a * c, AddMod(b, c);
    ReduceFactor(b + c, a);
    assert z == (b + c) % 17;
    assert (b + c) * a == x + y;
    assert z * a == a * z;
    ReduceSum(x, y);
  }

  lemma ModAdds(a: Residue, b: Residue, c: Residue)
    ensures AddMod(AddMod(a, b), c) == AddMod(a, AddMod(b, c)) && AddMod(a, NegMod(a)) == 0 && AddMod(a, 0) == a
  {}

  lemma ModMultiplies(a: Residue, b: Residue)
    ensures MulMod(a, b) == MulMod(b, a) && MulMod(a, 1) == a
  {}

  lemma ModIsCommutative()
    ensures Commutative(ModRing())
  {
    forall t: (Residue, Residue, Residue)
      ensures Law(ModRing(), t)
    {
      var (a, b, c) := t;
      ModAdds(a, b, c);
      ModMultiplies(a, b);
      ModAssociates(a, b, c);
      ModDistributes(a, b, c);
    }
  }

  /** 3 is a principal sixteenth root, with inverse 6, and 16 is its own inverse. */
  lemma SixteenPointsInvert(s: seq<Residue>)
    requires |s| == 16
    ensures PrincipalRoot(ModRing(), 3, 16) && Inverses(ModRing(), 3, 6, 16, 16)
    ensures InverseSpectrum(ModRing(), Spectrum(ModRing(), s, 3), 6, 16) == s
    ensures Spectrum(ModRing(), InverseSpectrum(ModRing(), s, 6, 16), 3) == s
  {
    var R := ModRing();
    ModIsCommutative();
    SixteenthRoot();
    InverseAfterForward(R, s, 3, 6, 16);
    ForwardAfterInverse(R, s, 3, 6, 16);
  }

  lemma SixteenthRoot()
    ensures PrincipalRoot(ModRing(), 3, 16) && Inverses(ModRing(), 3, 6, 16, 16)
  {
    EighthPower(8);
    assert IsPowerOfTwo(16);
    InverseOf(16);
  }

  lemma EighthPower(n: nat)
    requires n == 8
    ensures Pow(ModRing(), 3, n) == NegMod(1)
  {
    PowerOfThree(n);
    ThreeToEight();
  }

  lemma ThreeToEight()
    ensures ThreeTo(8) == 16
  {
    assert ThreeTo(2) == 9;
    assert ThreeTo(4) == 13;
    assert ThreeTo(6) == 15;
  }

  lemma InverseOf(n: nat)
    requires n == 16
    ensures Inverses(ModRing(), 3, 6, n, 16)
  {
    Count(n);
  }

  function ThreeTo(n: nat): Residue { if n == 0 then 1 else 3 * ThreeTo(n - 1) % 17 }

  lemma {:induction false} PowerOfThree(n: nat)
    ensures Pow(ModRing(), 3, n) == ThreeTo(n)
  {
    if n > 0 {
      PowerOfThree(n - 1);
    }
  }

  lemma {:induction false} Count(n: nat)
    requires n < 17
    ensures Times(ModRing(), n, 1) == n
  {
    if n > 0 {
      Count(n - 1);
    }
  }
}
