/**
 What the cosine and sine of the library have to satisfy for the transform to be exact, said of the
 functions alone: the addition formulas, and -1 at half of a full turn.
 */
module Twiddles {
  import opened Rings
  import opened Fourier
  import opened ComplexNumbers
  import opened Fft

  ghost predicate AddsAt(cosine: real -> real, sine: real -> real, a: real, b: real) {
    && cosine(a + b) == cosine(a) * cosine(b) - sine(a) * sine(b)
    && sine(a + b) == sine(a) * cosine(b) + cosine(a) * sine(b)
  }

  /** The addition formulas, with a full turn of the given length. */
  ghost predicate Circular(cosine: real -> real, sine: real -> real, turn: real) {
    && (forall a, b {:trigger AddsAt(cosine, sine, a, b)} :: AddsAt(cosine, sine, a, b))
    && cosine(turn / 2.0) == -1.0 && sine(turn / 2.0) == 0.0
  }

  /** The point of the unit circle at the angle -a. */
  function Circle(cosine: real -> real, sine: real -> real, a: real): Complex { Complex(cosine(a), -sine(a)) }

  lemma CircleAdds(cosine: real -> real, sine: real -> real, turn: real, a: real, b: real)
    requires Circular(cosine, sine, turn)
    ensures Product(Circle(cosine, sine, a), Circle(cosine, sine, b)) == Circle(cosine, sine, a + b)
  {
    assert AddsAt(cosine, sine, a, b);
    SignedProduct(cosine(a), sine(a), cosine(b), sine(b));
  }

  lemma SignedProduct(c: real, s: real, c': real, s': real)
    ensures Product(Complex(c, -s), Complex(c', -s')) == Complex(c * c' - s * s', -(s * c' + c * s'))
  {
    assert -s * -s' == s * s' && c * -s' == -(c * s') && -s * c' == -(s * c');
  }

  lemma CircleStart(cosine: real -> real, sine: real -> real, turn: real)
    requires Circular(cosine, sine, turn)
    ensures Circle(cosine, sine, 0.0) == Complex(1.0, 0.0)
  {
    var half := turn / 2.0;
    assert AddsAt(cosine, sine, 0.0, half);
    assert 0.0 + half == half;
  }

  lemma OneMore(k: nat, a: real, b: real)
    requires k > 0 && b == (k - 1) as real * a
    ensures a + b == k as real * a
  {
    assert k as real == (k - 1) as real + 1.0;
  }

  /** Powers of a point of the circle. */
  lemma {:induction false} CirclePower(R: Ring<Complex>, cosine: real -> real, sine: real -> real, turn: real,
                                       a: real, k: nat, b: real)
    requires IsComplexField(R) && Circular(cosine, sine, turn) && b == k as real * a
    ensures Pow(R, Circle(cosine, sine, a), k) == Circle(cosine, sine, b)
    decreases k
  {
    if k == 0 {
      ConstantsAreComplex(R);
      CircleStart(cosine, sine, turn);
      assert b == 0.0;
    } else {
      var w, c := Circle(cosine, sine, a), (k - 1) as real * a;
      CirclePower(R, cosine, sine, turn, a, k - 1, c);
      CircleAdds(cosine, sine, turn, a, c);
      assert OperationsAt(R, w, Circle(cosine, sine, c));
      OneMore(k, a, c);
      assert a + c == b;
    }
  }

  /** The angle of m steps of a turn divided into N. */
  function Angle(turn: real, m: nat, N: nat): real
    requires N > 0
  {
    m as real * (turn / N as real)
  }

  lemma StepsOfHalf(turn: real, N: nat)
    requires N > 0 && N % 2 == 0
    ensures turn / N as real + turn / N as real == turn / (N / 2) as real
    ensures Angle(turn, N / 2, N) == turn / 2.0
  {
    var h := (N / 2) as real;
    assert N as real == 2.0 * h;
    Halved(turn, h);
  }

  lemma Halved(turn: real, h: real)
    requires h > 0.0
    ensures turn / (2.0 * h) + turn / (2.0 * h) == turn / h
    ensures h * (turn / (2.0 * h)) == turn / 2.0
  {
    var q := turn / (2.0 * h);
    assert q * (2.0 * h) == turn;
    assert (q + q) * h == turn;
  }

  /** One step of a turn divided into N is a principal root. */
  lemma StepIsRoot(R: Ring<Complex>, cosine: real -> real, sine: real -> real, turn: real, N: nat)
    requires IsComplexField(R) && Circular(cosine, sine, turn) && TransformSize(N)
    ensures PrincipalRoot(R, Circle(cosine, sine, turn / N as real), N)
  {
    StepsOfHalf(turn, N);
    CirclePower(R, cosine, sine, turn, turn / N as real, N / 2, turn / 2.0);
    ConstantsAreComplex(R);
  }

  /** The full turn that the transform code divides, as the decimal it is written with. */
  const FULL_TURN: real := 6.2831853071795864769252867665590057683943

  lemma TwiddleIsCircle(cosine: real -> real, sine: real -> real, k: nat, N: nat)
    requires N > 0
    ensures Twiddle(cosine, sine, k, N) == Circle(cosine, sine, Angle(FULL_TURN, k, N))
  {
    StepsOf(FULL_TURN, k as real, N as real);
    assert TWO_PI * k as real / N as real == Angle(FULL_TURN, k, N);
  }

  lemma StepsOf(turn: real, k: real, n: real)
    requires n > 0.0
    ensures turn * k / n == k * (turn / n)
  {
    assert k * (turn / n) * n == k * turn;
  }

  lemma {:induction false} TwiddlesAreExact(R: Ring<Complex>, cosine: real -> real, sine: real -> real, N: nat)
    requires IsComplexField(R) && Circular(cosine, sine, FULL_TURN) && TransformSize(N)
    ensures ExactTwiddles(R, cosine, sine, Circle(cosine, sine, FULL_TURN / N as real), N)
    decreases N
  {
    if N > 2 {
      var a := FULL_TURN / N as real;
      var w := Circle(cosine, sine, a);
      forall k: nat | k < N / 2
        ensures Twiddle(cosine, sine, k, N) == Pow(R, w, k)
      {
        TwiddleIsCircle(cosine, sine, k, N);
        CirclePower(R, cosine, sine, FULL_TURN, a, k, Angle(FULL_TURN, k, N));
      }
      StepsOfHalf(FULL_TURN, N);
      CircleAdds(cosine, sine, FULL_TURN, a, a);
      assert OperationsAt(R, w, w);
      TwiddlesAreExact(R, cosine, sine, N / 2);
    }
  }

  /** Such a library is exact for every size, at the root cos(turn / N) - i sin(turn / N). */
  lemma CircularIsExact(R: Ring<Complex>, cosine: real -> real, sine: real -> real, N: nat)
    requires IsComplexField(R) && TransformSize(N)
    requires Circular(cosine, sine, 6.2831853071795864769252867665590057683943)
    ensures var step := 6.2831853071795864769252867665590057683943 / N as real;
            Exact(R, cosine, sine, Complex(cosine(step), -sine(step)), N)
  {
    StepIsRoot(R, cosine, sine, FULL_TURN, N);
    TwiddlesAreExact(R, cosine, sine, N);
  }

  // ----- The transform as a sum over angles -----

  /** The sum over j < m of s[j] (cos(turn j k / N) - i sin(turn j k / N)). */
  ghost function AngleSum(cosine: real -> real, sine: real -> real, turn: real, s: seq<Complex>, k: nat, m: nat)
      : Complex
    requires m <= |s|
    decreases m
  {
    if m == 0 then Complex(0.0, 0.0)
    else
      var a := Angle(turn, (m - 1) * k, |s|);
      Plus(AngleSum(cosine, sine, turn, s, k, m - 1), Product(s[m - 1], Complex(cosine(a), -sine(a))))
  }

  lemma PowerAtAngle(R: Ring<Complex>, cosine: real -> real, sine: real -> real, turn: real, N: nat, j: nat, k: nat)
    requires IsComplexField(R) && Circular(cosine, sine, turn) && N > 0
    ensures Pow(R, Pow(R, Circle(cosine, sine, turn / N as real), k), j)
            == Circle(cosine, sine, Angle(turn, j * k, N))
  {
    var a := turn / N as real;
    var b := k as real * a;
    CirclePower(R, cosine, sine, turn, a, k, b);
    Reassociate(j, k, a);
    CirclePower(R, cosine, sine, turn, b, j, Angle(turn, j * k, N));
  }

  lemma Reassociate(j: nat, k: nat, a: real)
    ensures (j * k) as real * a == j as real * (k as real * a)
  {
    assert (j * k) as real == j as real * k as real by { ProductOfCasts(j, k); }
  }

  lemma {:induction false} ProductOfCasts(j: nat, k: nat)
    ensures (j * k) as real == j as real * k as real
    decreases j
  {
    if j > 0 {
      ProductOfCasts(j - 1, k);
      assert j * k == (j - 1) * k + k;
      assert j as real == (j - 1) as real + 1.0;
    }
  }

  lemma {:induction false} EvalIsAngleSum(R: Ring<Complex>, cosine: real -> real, sine: real -> real, turn: real,
                                          s: seq<Complex>, k: nat, m: nat)
    requires IsComplexField(R) && Circular(cosine, sine, turn) && m <= |s|
    ensures |s| > 0 ==>
              Eval(R, s, Pow(R, Circle(cosine, sine, turn / |s| as real), k), m)
              == AngleSum(cosine, sine, turn, s, k, m)
    decreases m
  {
    if m == 0 {
      ConstantsAreComplex(R);
    } else {
      var z := Pow(R, Circle(cosine, sine, turn / |s| as real), k);
      var p := Circle(cosine, sine, Angle(turn, (m - 1) * k, |s|));
      EvalIsAngleSum(R, cosine, sine, turn, s, k, m - 1);
      PowerAtAngle(R, cosine, sine, turn, |s|, m - 1, k);
      NextTerm(R, s, z, p, m - 1);
    }
  }

  lemma NextTerm(R: Ring<Complex>, s: seq<Complex>, z: Complex, p: Complex, m: nat)
    requires IsComplexField(R) && m < |s| && Pow(R, z, m) == p
    ensures Eval(R, s, z, m + 1) == Plus(Eval(R, s, z, m), Product(s[m], p))
  {
    var e, q := Eval(R, s, z, m), R.mul(s[m], p);
    assert OperationsAt(R, s[m], p) && OperationsAt(R, e, q);
  }

  /** On such a library each output of the transform is the sum over the angles 2 pi j k / N. */
  lemma SpectrumByAngles(R: Ring<Complex>, cosine: real -> real, sine: real -> real, s: seq<Complex>, k: nat)
    requires IsComplexField(R) && k < |s|
    requires Circular(cosine, sine, 6.2831853071795864769252867665590057683943)
    ensures var step := 6.2831853071795864769252867665590057683943 / |s| as real;
            Spectrum(R, s, Complex(cosine(step), -sine(step)))[k]
            == AngleSum(cosine, sine, 6.2831853071795864769252867665590057683943, s, k, |s|)
  {
    EvalIsAngleSum(R, cosine, sine, FULL_TURN, s, k, |s|);
  }

  /** The sum over j < m of samples[j] f(turn j k / N). */
  ghost function Correlation(f: real -> real, turn: real, samples: seq<real>, k: nat, m: nat): real
    requires m <= |samples|
    decreases m
  {
    if m == 0 then 0.0
    else Correlation(f, turn, samples, k, m - 1) + samples[m - 1] * f(Angle(turn, (m - 1) * k, |samples|))
  }

  lemma {:induction false} RealAngleSum(cosine: real -> real, sine: real -> real, turn: real, samples: seq<real>,
                                        k: nat, m: nat)
    requires m <= |samples|
    ensures AngleSum(cosine, sine, turn, Packed(samples), k, m)
            == Complex(Correlation(cosine, turn, samples, k, m), -Correlation(sine, turn, samples, k, m))
    decreases m
  {
    if m > 0 {
      RealAngleSum(cosine, sine, turn, samples, k, m - 1);
    }
  }

  /** Of real samples the outputs are the correlations with the cosine and, negated, with the sine. */
  lemma SamplesByAngles(R: Ring<Complex>, cosine: real -> real, sine: real -> real, samples: seq<real>, k: nat)
    requires IsComplexField(R) && k < |samples|
    requires Circular(cosine, sine, 6.2831853071795864769252867665590057683943)
    ensures var turn, n := 6.2831853071795864769252867665590057683943, |samples|;
            var w := Complex(cosine(turn / n as real), -sine(turn / n as real));
            Spectrum(R, Packed(samples), w)[k]
            == Complex(Correlation(cosine, turn, samples, k, n), -Correlation(sine, turn, samples, k, n))
  {
    SpectrumByAngles(R, cosine, sine, Packed(samples), k);
    RealAngleSum(cosine, sine, FULL_TURN, samples, k, |samples|);
  }

  // ----- The angles are in radians -----

  ghost predicate NearSeriesAt(sine: real -> real, x: real) {
    0.0 <= x <= 1.0 ==> x - x * x * x / 6.0 <= sine(x) <= x
  }

  /** The first two partial sums of the sine's power series bound it on [0, 1]. */
  ghost predicate NearSeries(sine: real -> real) {
    forall x {:trigger NearSeriesAt(sine, x)} :: NearSeriesAt(sine, x)
  }

  lemma CubeGrows(x: real, y: real)
    requires 0.0 <= x <= y
    ensures x * x * x <= y * y * y
  {
    assert x * x <= y * x <= y * y;
    assert x * x * x <= y * y * x <= y * y * y;
  }

  lemma QuotientGrows(x: real, y: real, n: real)
    requires x <= y && n > 0.0
    ensures x / n <= y / n
  {
    var d := y - x;
    assert y / n - x / n == d / n;
  }

  lemma SineWithin(sine: real -> real, x: real, least: real, most: real)
    requires NearSeries(sine) && 0.0 <= least <= x <= most && x <= 1.0
    ensures least - most * most * most / 6.0 <= sine(x) <= most
  {
    assert NearSeriesAt(sine, x);
    CubeGrows(x, most);
  }

  lemma StepWithin(N: nat)
    requires N >= 8
    ensures 0.0 <= 6.2831853 / N as real <= TWO_PI / N as real <= 6.2831854 / N as real
    ensures TWO_PI / N as real <= 1.0
  {
    var n := N as real;
    QuotientGrows(0.0, 6.2831853, n);
    QuotientGrows(6.2831853, TWO_PI, n);
    QuotientGrows(TWO_PI, 6.2831854, n);
    QuotientGrows(TWO_PI, n, n);
  }

  /** The first step of every larger transform is a turn by 2 pi / N, to eight digits. */
  lemma FirstTwiddle(cosine: real -> real, sine: real -> real, N: nat)
    requires NearSeries(sine) && N >= 8
    ensures var least, most := 6.2831853 / N as real, 6.2831854 / N as real;
            -most <= Twiddle(cosine, sine, 1, N).im <= -(least - most * most * most / 6.0)
  {
    StepWithin(N);
    SineWithin(sine, TWO_PI / N as real, 6.2831853 / N as real, 6.2831854 / N as real);
  }
}
