/**
 The discrete Fourier transform as a plain sum over any commutative ring, and the algebra behind
 the recursive transform: the even/odd split, the butterfly, the vanishing sums of roots of unity,
 inversion and conjugate symmetry.
 */
module Fourier {
  import opened Rings

  predicate IsPowerOfTwo(n: nat)
    decreases n
  {
    n == 1 || (n > 1 && n % 2 == 0 && IsPowerOfTwo(n / 2))
  }

  /** The sizes the transform accepts: 2^n with n >= 1. */
  predicate TransformSize(n: nat) { n >= 2 && IsPowerOfTwo(n) }

  /** w^(N/2) == -1, which makes w a principal N-th root of unity. */
  ghost predicate PrincipalRoot<T(!new)>(R: Ring<T>, w: T, N: nat) {
    TransformSize(N) && Pow(R, w, N / 2) == R.neg(R.one)
  }

  /** s[0] + s[1] z + ... + s[m-1] z^(m-1) */
  ghost function Eval<T(!new)>(R: Ring<T>, s: seq<T>, z: T, m: nat): T
    requires m <= |s|
    decreases m
  {
    if m == 0 then R.zero else R.add(Eval(R, s, z, m - 1), R.mul(s[m - 1], Pow(R, z, m - 1)))
  }

  /** The k-th coefficient: the sum over j of s[j] (w^k)^j. */
  ghost function Dft<T(!new)>(R: Ring<T>, s: seq<T>, w: T, k: nat): T {
    Eval(R, s, Pow(R, w, k), |s|)
  }

  ghost function Spectrum<T(!new)>(R: Ring<T>, s: seq<T>, w: T): (r: seq<T>)
    ensures |r| == |s|
    ensures forall k :: 0 <= k < |s| ==> r[k] == Dft(R, s, w, k)
  {
    seq(|s|, k requires 0 <= k => Dft(R, s, w, k))
  }

  /** The textbook inverse: 1/N times the transform at the inverse root. */
  ghost function InverseSpectrum<T(!new)>(R: Ring<T>, S: seq<T>, w': T, nth: T): (r: seq<T>)
    ensures |r| == |S|
    ensures forall i :: 0 <= i < |S| ==> r[i] == R.mul(nth, Dft(R, S, w', i))
  {
    seq(|S|, i requires 0 <= i => R.mul(nth, Dft(R, S, w', i)))
  }

  ghost function Evens<T>(s: seq<T>): (r: seq<T>)
    ensures |r| == |s| / 2
    ensures forall j :: 0 <= j < |r| ==> r[j] == s[2 * j]
  {
    seq(|s| / 2, j requires 0 <= j < |s| / 2 => s[2 * j])
  }

  ghost function Odds<T>(s: seq<T>): (r: seq<T>)
    ensures |r| == |s| / 2
    ensures forall j :: 0 <= j < |r| ==> r[j] == s[2 * j + 1]
  {
    seq(|s| / 2, j requires 0 <= j < |s| / 2 => s[2 * j + 1])
  }

  // ----- The even/odd split and the butterfly -----

  /** Appending an even coefficient c and an odd coefficient d at q == (z^2)^(m-1). */
  lemma SplitStep<T(!new)>(R: Ring<T>, e: T, o: T, c: T, d: T, z: T, q: T)
    requires Commutative(R)
    ensures R.add(R.add(R.add(e, R.mul(z, o)), R.mul(c, q)), R.mul(d, R.mul(z, q))) ==
            R.add(R.add(e, R.mul(c, q)), R.mul(z, R.add(o, R.mul(d, q))))
  {
    var cq, dq, zo := R.mul(c, q), R.mul(d, q), R.mul(z, o);
    assert Law(R, (d, z, q)) && Law(R, (z, d, q));
    assert Law(R, (R.add(e, zo), cq, R.mul(z, dq)));
    AddSwap(R, e, zo, cq, R.mul(z, dq));
    assert Law(R, (z, o, dq));
  }

  /** The last two terms of an even-length sum. */
  lemma EvalTwo<T(!new)>(R: Ring<T>, s: seq<T>, z: T, i: nat)
    requires Commutative(R)
    requires 2 * i + 2 <= |s|
    ensures var q := Pow(R, R.mul(z, z), i);
            Eval(R, s, z, 2 * i + 2) ==
            R.add(R.add(Eval(R, s, z, 2 * i), R.mul(s[2 * i], q)), R.mul(s[2 * i + 1], R.mul(z, q)))
  {
    PowSquare(R, z, i);
    assert Pow(R, z, 2 * i + 1) == R.mul(z, Pow(R, z, 2 * i));
    assert Eval(R, s, z, 2 * i + 1) == R.add(Eval(R, s, z, 2 * i), R.mul(s[2 * i], Pow(R, z, 2 * i)));
  }

  lemma EvalLast<T(!new)>(R: Ring<T>, s: seq<T>, z: T, i: nat)
    requires i < |s|
    ensures Eval(R, s, z, i + 1) == R.add(Eval(R, s, z, i), R.mul(s[i], Pow(R, z, i)))
  {}

  /** P(z) == E(z^2) + z O(z^2) for the even and odd coefficients of P. */
  lemma {:induction false} EvalSplit<T(!new)>(R: Ring<T>, s: seq<T>, es: seq<T>, os: seq<T>, z: T, m: nat)
    requires Commutative(R)
    requires es == Evens(s) && os == Odds(s)
    requires 2 * m <= |s|
    ensures var zz := R.mul(z, z);
            Eval(R, s, z, 2 * m) == R.add(Eval(R, es, zz, m), R.mul(z, Eval(R, os, zz, m)))
    decreases m
  {
    var zz := R.mul(z, z);
    if m == 0 {
      MulZero(R, z);
      assert Law(R, (R.zero, z, z));
    } else {
      var i := m - 1;
      var q, e, o := Pow(R, zz, i), Eval(R, es, zz, i), Eval(R, os, zz, i);
      calc {
        Eval(R, s, z, 2 * m);
        { EvalTwo(R, s, z, i); }
        R.add(R.add(Eval(R, s, z, 2 * i), R.mul(es[i], q)), R.mul(os[i], R.mul(z, q)));
        { EvalSplit(R, s, es, os, z, i); }
        R.add(R.add(R.add(e, R.mul(z, o)), R.mul(es[i], q)), R.mul(os[i], R.mul(z, q)));
        { SplitStep(R, e, o, es[i], os[i], z, q); }
        R.add(R.add(e, R.mul(es[i], q)), R.mul(z, R.add(o, R.mul(os[i], q))));
        { EvalLast(R, es, zz, i); EvalLast(R, os, zz, i); }
        R.add(Eval(R, es, zz, m), R.mul(z, Eval(R, os, zz, m)));
      }
    }
  }

  /** w^(k + N/2) == -(w^k). */
  lemma HalfTurn<T(!new)>(R: Ring<T>, w: T, N: nat, k: nat)
    requires Commutative(R) && PrincipalRoot(R, w, N)
    ensures Pow(R, w, k + N / 2) == R.neg(Pow(R, w, k))
  {
    var z := Pow(R, w, k);
    PowAdd(R, w, k, N / 2);
    assert Law(R, (z, R.neg(R.one), z));
    MulNeg(R, R.one, z);
    assert Law(R, (R.one, z, z)) && Law(R, (z, z, z));
  }

  lemma FullTurn<T(!new)>(R: Ring<T>, w: T, N: nat)
    requires Commutative(R) && PrincipalRoot(R, w, N)
    ensures Pow(R, w, N) == R.one
  {
    PowAdd(R, w, N / 2, N / 2);
    NegSquare(R, R.one);
    assert Law(R, (R.one, R.one, R.one));
  }

  lemma RootSquared<T(!new)>(R: Ring<T>, w: T, N: nat)
    requires Commutative(R) && PrincipalRoot(R, w, N) && N > 2
    ensures PrincipalRoot(R, R.mul(w, w), N / 2)
  {
    PowSquare(R, w, N / 4);
  }

  /** Two half-size coefficients give coefficients k and k + N/2. */
  lemma Butterfly<T(!new)>(R: Ring<T>, s: seq<T>, w: T, k: nat)
    requires Commutative(R) && PrincipalRoot(R, w, |s|)
    ensures var ww := R.mul(w, w);
            var e, t := Dft(R, Evens(s), ww, k), R.mul(Pow(R, w, k), Dft(R, Odds(s), ww, k));
            Dft(R, s, w, k) == R.add(e, t) && Dft(R, s, w, k + |s| / 2) == R.Sub(e, t)
  {
    var h := |s| / 2;
    var z := Pow(R, w, k);
    PowOfMul(R, w, w, k);
    EvalSplit(R, s, Evens(s), Odds(s), z, h);
    HalfTurn(R, w, |s|, k);
    NegSquare(R, z);
    EvalSplit(R, s, Evens(s), Odds(s), R.neg(z), h);
    MulNeg(R, z, Eval(R, Odds(s), R.mul(z, z), h));
  }

  lemma SinglePoint<T(!new)>(R: Ring<T>, s: seq<T>, z: T)
    requires Commutative(R) && |s| == 1
    ensures Eval(R, s, z, 1) == s[0]
  {
    EvalLast(R, s, z, 0);
    assert Law(R, (s[0], R.one, z)) && Law(R, (R.zero, s[0], z)) && Law(R, (s[0], R.zero, z));
  }

  /** The two-point transform is a sum and a difference. */
  lemma TwoPoint<T(!new)>(R: Ring<T>, s: seq<T>, w: T)
    requires Commutative(R) && PrincipalRoot(R, w, 2) && |s| == 2
    ensures Dft(R, s, w, 0) == R.add(s[0], s[1]) && Dft(R, s, w, 1) == R.Sub(s[0], s[1])
  {
    Butterfly(R, s, w, 0);
    var z := Pow(R, R.mul(w, w), 0);
    SinglePoint(R, Evens(s), z);
    SinglePoint(R, Odds(s), z);
    assert Law(R, (s[1], R.one, w)) && Law(R, (R.one, s[1], w));
  }

  // ----- Sums of roots of unity -----

  /** 1 + z + ... + z^(n-1) */
  ghost function Geometric<T(!new)>(R: Ring<T>, z: T, n: nat): T
    decreases n
  {
    if n == 0 then R.zero else R.add(Geometric(R, z, n - 1), Pow(R, z, n - 1))
  }

  lemma {:induction false} GeometricSplit<T(!new)>(R: Ring<T>, z: T, n: nat, m: nat)
    requires Commutative(R)
    ensures Geometric(R, z, n + m) ==
            R.add(Geometric(R, z, n), R.mul(Pow(R, z, n), Geometric(R, z, m)))
    decreases m
  {
    var p := Pow(R, z, n);
    if m == 0 {
      MulZero(R, p);
      assert Law(R, (Geometric(R, z, n), z, z));
    } else {
      var g, q := Geometric(R, z, m - 1), Pow(R, z, m - 1);
      GeometricSplit(R, z, n, m - 1);
      PowAdd(R, z, n, m - 1);
      assert Law(R, (Geometric(R, z, n), R.mul(p, g), R.mul(p, q))) && Law(R, (p, g, q));
    }
  }

  /** (-1)^m */
  lemma SignPow<T(!new)>(R: Ring<T>, m: nat)
    requires Commutative(R)
    ensures Pow(R, R.neg(R.one), m) == if m % 2 == 0 then R.one else R.neg(R.one)
  {
    var a, h := R.neg(R.one), m / 2;
    PowSquare(R, a, h);
    NegSquare(R, R.one);
    assert Law(R, (R.one, R.one, R.one));
    PowOne(R, h);
    if m % 2 == 1 {
      assert Pow(R, a, m) == R.mul(a, Pow(R, a, 2 * h));
      assert Law(R, (a, a, a));
    }
  }

  /** The two halves of the sum cancel for odd m and double for even m. */
  lemma HalfSums<T(!new)>(R: Ring<T>, w: T, N: nat, m: nat)
    requires Commutative(R) && PrincipalRoot(R, w, N)
    ensures var z := Pow(R, w, m);
            var g := Geometric(R, z, N / 2);
            Geometric(R, z, N) == if m % 2 == 0 then R.add(g, g) else R.zero
  {
    var h, z := N / 2, Pow(R, w, m);
    var g := Geometric(R, z, h);
    GeometricSplit(R, z, h, h);
    PowSwap(R, w, m, h);
    SignPow(R, m);
    assert Law(R, (g, R.one, g)) && Law(R, (R.one, g, g));
    MulNeg(R, R.one, g);
  }

  /** The sum of (w^m)^k over k < N is N when m is a multiple of N, and vanishes otherwise. */
  lemma {:induction false} RootSum<T(!new)>(R: Ring<T>, w: T, N: nat, m: nat)
    requires Commutative(R) && PrincipalRoot(R, w, N) && m < 2 * N
    ensures Geometric(R, Pow(R, w, m), N) ==
            if m == 0 || m == N then Times(R, N, R.one) else R.zero
    decreases N
  {
    var h, z := N / 2, Pow(R, w, m);
    HalfSums(R, w, N, m);
    if m % 2 == 0 {
      if N == 2 {
        assert Geometric(R, z, 1) == R.add(Geometric(R, z, 0), Pow(R, z, 0));
        assert Times(R, 1, R.one) == R.add(Times(R, 0, R.one), R.one);
      } else {
        RootSquared(R, w, N);
        RootSum(R, R.mul(w, w), h, m / 2);
        PowSquare(R, w, m / 2);
      }
      TimesAdd(R, h, h, R.one);
      assert Law(R, (R.zero, R.zero, R.zero));
    }
  }

  // ----- Exchanging two sums -----

  /** The sum over k < n of a[k] (c[0] + c[1] w^k + ... + c[m-1] (w^k)^(m-1)). */
  ghost function Pairing<T(!new)>(R: Ring<T>, a: seq<T>, c: seq<T>, w: T, n: nat, m: nat): T
    requires n <= |a| && m <= |c|
    decreases n
  {
    if n == 0 then R.zero
    else R.add(Pairing(R, a, c, w, n - 1, m), R.mul(a[n - 1], Eval(R, c, Pow(R, w, n - 1), m)))
  }

  /** a (e + c p) == a e + c (a p), added to d + c g. */
  lemma PairingStep<T(!new)>(R: Ring<T>, d: T, g: T, a: T, e: T, c: T, p: T)
    requires Commutative(R)
    ensures R.add(R.add(d, R.mul(c, g)), R.mul(a, R.add(e, R.mul(c, p)))) ==
            R.add(R.add(d, R.mul(a, e)), R.mul(c, R.add(g, R.mul(a, p))))
  {
    assert Law(R, (a, e, R.mul(c, p)));
    assert Law(R, (a, c, p)) && Law(R, (c, a, p));
    AddSwap(R, d, R.mul(c, g), R.mul(a, e), R.mul(c, R.mul(a, p)));
    assert Law(R, (c, g, R.mul(a, p)));
  }

  /** Lengthening the inner sum by c[m] adds c[m] times the other polynomial at w^m. */
  lemma {:induction false} PairingGrow<T(!new)>(R: Ring<T>, a: seq<T>, c: seq<T>, w: T, n: nat, m: nat)
    requires Commutative(R)
    requires n <= |a| && m < |c|
    ensures Pairing(R, a, c, w, n, m + 1) ==
            R.add(Pairing(R, a, c, w, n, m), R.mul(c[m], Eval(R, a, Pow(R, w, m), n)))
    decreases n
  {
    if n == 0 {
      MulZero(R, c[m]);
      assert Law(R, (R.zero, R.zero, R.zero));
    } else {
      var k, wk := n - 1, Pow(R, w, n - 1);
      var e, p := Eval(R, c, wk, m), Pow(R, wk, m);
      var g := Eval(R, a, Pow(R, w, m), k);
      PairingGrow(R, a, c, w, k, m);
      PairingStep(R, Pairing(R, a, c, w, k, m), g, a[k], e, c[m], p);
      PowSwap(R, w, k, m);
      EvalLast(R, c, wk, m);
      EvalLast(R, a, Pow(R, w, m), k);
    }
  }

  // ----- Inversion -----

  /** -i modulo N, as an index. */
  function Mirror(N: nat, i: nat): (r: nat)
    requires i < N
    ensures r < N
  {
    if i == 0 then 0 else N - i
  }

  ghost predicate ArePowers<T(!new)>(R: Ring<T>, y: T, ys: seq<T>) {
    forall k :: 0 <= k < |ys| ==> ys[k] == Pow(R, y, k)
  }

  lemma {:induction false} EvalPowers<T(!new)>(R: Ring<T>, ys: seq<T>, y: T, z: T, n: nat)
    requires Commutative(R)
    requires n <= |ys| && ArePowers(R, y, ys)
    ensures Eval(R, ys, z, n) == Geometric(R, R.mul(y, z), n)
    decreases n
  {
    if n == 0 {
    } else {
      EvalPowers(R, ys, y, z, n - 1);
      PowOfMul(R, y, z, n - 1);
    }
  }

  lemma {:induction false} SpectrumPairing<T(!new)>(R: Ring<T>, s: seq<T>, X: seq<T>, ys: seq<T>, y: T, w: T, n: nat)
    requires Commutative(R)
    requires n <= |s| && X == Spectrum(R, s, w) && |ys| == |s| && ArePowers(R, y, ys)
    ensures Eval(R, X, y, n) == Pairing(R, ys, s, w, n, |s|)
    decreases n
  {
    if n == 0 {
    } else {
      SpectrumPairing(R, s, X, ys, y, w, n - 1);
      assert Law(R, (X[n - 1], ys[n - 1], y));
      EvalLast(R, X, y, n - 1);
    }
  }

  /** Only the mirror image of i survives in the double sum. */
  lemma {:induction false} PairingSurvivor<T(!new)>(R: Ring<T>, s: seq<T>, ys: seq<T>, w: T, i: nat, m: nat)
    requires Commutative(R) && PrincipalRoot(R, w, |s|)
    requires i < |s| && m <= |s| && |ys| == |s| && ArePowers(R, Pow(R, w, i), ys)
    ensures Pairing(R, ys, s, w, |s|, m) ==
            if Mirror(|s|, i) < m then Times(R, |s|, s[Mirror(|s|, i)]) else R.zero
    decreases m
  {
    var N := |s|;
    if m == 0 {
      PairingZero(R, ys, s, w, N);
    } else {
      var j := m - 1;
      PairingSurvivor(R, s, ys, w, i, j);
      PairingGrow(R, ys, s, w, N, j);
      SurvivingTerm(R, s, ys, w, i, j);
      assert Law(R, (R.zero, Times(R, N, s[j]), R.zero)) && Law(R, (Times(R, N, s[j]), R.zero, R.zero));
      assert Law(R, (Times(R, N, s[Mirror(N, i)]), R.zero, R.zero)) && Law(R, (R.zero, R.zero, R.zero));
    }
  }

  lemma {:induction false} PairingZero<T(!new)>(R: Ring<T>, a: seq<T>, c: seq<T>, w: T, n: nat)
    requires Commutative(R) && n <= |a|
    ensures Pairing(R, a, c, w, n, 0) == R.zero
    decreases n
  {
    if n > 0 {
      PairingZero(R, a, c, w, n - 1);
      MulZero(R, a[n - 1]);
      assert Law(R, (R.zero, R.zero, R.zero));
    }
  }

  lemma SurvivingTerm<T(!new)>(R: Ring<T>, s: seq<T>, ys: seq<T>, w: T, i: nat, j: nat)
    requires Commutative(R) && PrincipalRoot(R, w, |s|)
    requires i < |s| && j < |s| && |ys| == |s| && ArePowers(R, Pow(R, w, i), ys)
    ensures R.mul(s[j], Eval(R, ys, Pow(R, w, j), |s|)) ==
            if j == Mirror(|s|, i) then Times(R, |s|, s[j]) else R.zero
  {
    EvalPowers(R, ys, Pow(R, w, i), Pow(R, w, j), |s|);
    PowAdd(R, w, i, j);
    RootSum(R, w, |s|, i + j);
    MulTimes(R, |s|, s[j], R.one);
    assert Law(R, (s[j], R.one, R.one));
    MulZero(R, s[j]);
  }

  /** Transforming twice gives N times the mirrored input. */
  lemma TwiceTransformed<T(!new)>(R: Ring<T>, s: seq<T>, w: T, i: nat)
    requires Commutative(R) && PrincipalRoot(R, w, |s|) && i < |s|
    ensures Dft(R, Spectrum(R, s, w), w, i) == Times(R, |s|, s[Mirror(|s|, i)])
  {
    var y := Pow(R, w, i);
    var ys := seq(|s|, k requires 0 <= k => Pow(R, y, k));
    SpectrumPairing(R, s, Spectrum(R, s, w), ys, y, w, |s|);
    PairingSurvivor(R, s, ys, w, i, |s|);
  }

  /** w' is the inverse of w, and nth the inverse of N. */
  ghost predicate Inverses<T(!new)>(R: Ring<T>, w: T, w': T, N: nat, nth: T) {
    R.mul(w, w') == R.one && R.mul(nth, Times(R, N, R.one)) == R.one
  }

  /** w'^i == w^(N-i). */
  lemma InversePower<T(!new)>(R: Ring<T>, w: T, w': T, N: nat, i: nat)
    requires Commutative(R) && PrincipalRoot(R, w, N) && R.mul(w, w') == R.one && i < N
    ensures Pow(R, w', i) == Pow(R, w, Mirror(N, i))
  {
    var j := Mirror(N, i);
    var a, b, c := Pow(R, w, j), Pow(R, w, i), Pow(R, w', i);
    assert R.mul(b, c) == R.one by {
      PowOfMul(R, w, w', i);
      PowOne(R, i);
    }
    assert R.mul(a, b) == R.one by {
      PowAdd(R, w, j, i);
      FullTurn(R, w, N);
      assert Law(R, (R.one, R.one, R.one));
    }
    assert Law(R, (a, b, c)) && Law(R, (a, R.one, c)) && Law(R, (c, R.one, c)) && Law(R, (R.one, c, c));
  }

  lemma InverseIsPrincipal<T(!new)>(R: Ring<T>, w: T, w': T, N: nat)
    requires Commutative(R) && PrincipalRoot(R, w, N) && R.mul(w, w') == R.one
    ensures PrincipalRoot(R, w', N)
  {
    InversePower(R, w, w', N, N / 2);
  }

  lemma DivideByN<T(!new)>(R: Ring<T>, N: nat, nth: T, a: T)
    requires Commutative(R) && R.mul(nth, Times(R, N, R.one)) == R.one
    ensures R.mul(nth, Times(R, N, a)) == a
  {
    var n := Times(R, N, R.one);
    MulTimes(R, N, a, R.one);
    assert Law(R, (a, R.one, a)) && Law(R, (a, n, n)) && Law(R, (nth, n, a)) && Law(R, (R.one, a, a));
  }

  /** The inverse transform undoes the transform. */
  lemma InverseAfterForward<T(!new)>(R: Ring<T>, s: seq<T>, w: T, w': T, nth: T)
    requires Commutative(R) && PrincipalRoot(R, w, |s|) && Inverses(R, w, w', |s|, nth)
    ensures InverseSpectrum(R, Spectrum(R, s, w), w', nth) == s
  {
    var N, X := |s|, Spectrum(R, s, w);
    forall i | 0 <= i < N
      ensures InverseSpectrum(R, X, w', nth)[i] == s[i]
    {
      InversePower(R, w, w', N, i);
      TwiceTransformed(R, s, w, Mirror(N, i));
      DivideByN(R, N, nth, s[i]);
    }
  }

  lemma {:induction false} EvalScaled<T(!new)>(R: Ring<T>, a: seq<T>, b: seq<T>, c: T, z: T, n: nat)
    requires Commutative(R) && n <= |a| == |b|
    requires forall j :: 0 <= j < |a| ==> b[j] == R.mul(c, a[j])
    ensures Eval(R, b, z, n) == R.mul(c, Eval(R, a, z, n))
    decreases n
  {
    if n == 0 {
      MulZero(R, c);
    } else {
      var e, p := Eval(R, a, z, n - 1), Pow(R, z, n - 1);
      EvalScaled(R, a, b, c, z, n - 1);
      assert Law(R, (c, a[n - 1], p)) && Law(R, (c, e, R.mul(a[n - 1], p)));
    }
  }

  /** The transform undoes the inverse transform. */
  lemma ForwardAfterInverse<T(!new)>(R: Ring<T>, S: seq<T>, w: T, w': T, nth: T)
    requires Commutative(R) && PrincipalRoot(R, w, |S|) && Inverses(R, w, w', |S|, nth)
    ensures Spectrum(R, InverseSpectrum(R, S, w', nth), w) == S
  {
    var N, X := |S|, Spectrum(R, S, w');
    assert Law(R, (w, w', w));
    InverseIsPrincipal(R, w, w', N);
    InverseAfterForward(R, S, w', w, nth);
    forall i | 0 <= i < N
      ensures Spectrum(R, InverseSpectrum(R, S, w', nth), w)[i] == S[i]
    {
      EvalScaled(R, X, InverseSpectrum(R, S, w', nth), nth, Pow(R, w, i), N);
      assert InverseSpectrum(R, X, w, nth)[i] == S[i];
    }
  }

  // ----- Conjugation -----

  /** conj is a ring homomorphism, at two elements. */
  ghost predicate ConjugateLaw<T(!new)>(R: Ring<T>, conj: T -> T, t: (T, T)) {
    var (a, b) := t;
    && conj(R.add(a, b)) == R.add(conj(a), conj(b))
    && conj(R.mul(a, b)) == R.mul(conj(a), conj(b))
    && conj(R.zero) == R.zero
    && conj(R.one) == R.one
  }

  ghost predicate Conjugation<T(!new)>(R: Ring<T>, conj: T -> T) {
    forall t {:trigger ConjugateLaw(R, conj, t)} :: ConjugateLaw(R, conj, t)
  }

  lemma {:induction false} ConjugatePow<T(!new)>(R: Ring<T>, conj: T -> T, a: T, n: nat)
    requires Conjugation(R, conj)
    ensures conj(Pow(R, a, n)) == Pow(R, conj(a), n)
    decreases n
  {
    if n == 0 {
      assert ConjugateLaw(R, conj, (a, a));
    } else {
      ConjugatePow(R, conj, a, n - 1);
      assert ConjugateLaw(R, conj, (a, Pow(R, a, n - 1)));
    }
  }

  ghost predicate AreConjugates<T(!new)>(conj: T -> T, s: seq<T>, c: seq<T>) {
    |c| == |s| && forall j :: 0 <= j < |s| ==> c[j] == conj(s[j])
  }

  lemma ConjugateTerm<T(!new)>(R: Ring<T>, conj: T -> T, e: T, c: T, z: T, i: nat)
    requires Conjugation(R, conj)
    ensures conj(R.add(e, R.mul(c, Pow(R, z, i)))) ==
            R.add(conj(e), R.mul(conj(c), Pow(R, conj(z), i)))
  {
    ConjugatePow(R, conj, z, i);
    assert ConjugateLaw(R, conj, (c, Pow(R, z, i)));
    assert ConjugateLaw(R, conj, (e, R.mul(c, Pow(R, z, i))));
  }

  lemma {:induction false} ConjugateEval<T(!new)>(R: Ring<T>, conj: T -> T, s: seq<T>, t: seq<T>, z: T, n: nat)
    requires Conjugation(R, conj) && n <= |s| && AreConjugates(conj, s, t)
    ensures conj(Eval(R, s, z, n)) == Eval(R, t, conj(z), n)
    decreases n
  {
    if n == 0 {
      assert ConjugateLaw(R, conj, (z, z));
    } else {
      var i := n - 1;
      ConjugateEval(R, conj, s, t, z, i);
      ConjugateTerm(R, conj, Eval(R, s, z, i), s[i], z, i);
    }
  }

  /** Input fixed by conjugation has a spectrum mirrored by conjugation. */
  lemma ConjugateSymmetry<T(!new)>(R: Ring<T>, conj: T -> T, s: seq<T>, w: T, k: nat)
    requires Commutative(R) && Conjugation(R, conj) && PrincipalRoot(R, w, |s|)
    requires R.mul(w, conj(w)) == R.one
    requires forall j :: 0 <= j < |s| ==> conj(s[j]) == s[j]
    requires 0 < k < |s|
    ensures Dft(R, s, w, |s| - k) == conj(Dft(R, s, w, k))
  {
    InversePower(R, w, conj(w), |s|, k);
    ConjugatePow(R, conj, w, k);
    ConjugateEval(R, conj, s, s, Pow(R, w, k), |s|);
  }

  /** The sum over j < n of s[j] c[j]. */
  ghost function Inner<T(!new)>(R: Ring<T>, s: seq<T>, c: seq<T>, n: nat): T
    requires n <= |s| && n <= |c|
    decreases n
  {
    if n == 0 then R.zero else R.add(Inner(R, s, c, n - 1), R.mul(s[n - 1], c[n - 1]))
  }

  lemma InnerLast<T(!new)>(R: Ring<T>, s: seq<T>, c: seq<T>, j: nat)
    requires j < |s| && j < |c|
    ensures Inner(R, s, c, j + 1) == R.add(Inner(R, s, c, j), R.mul(s[j], c[j]))
  {}

  lemma TermEnergy<T(!new)>(R: Ring<T>, s: seq<T>, w: T, w': T, c: T, j: nat)
    requires Commutative(R) && PrincipalRoot(R, w, |s|) && R.mul(w, w') == R.one && j < |s|
    ensures R.mul(c, Eval(R, Spectrum(R, s, w), Pow(R, w', j), |s|)) == Times(R, |s|, R.mul(s[j], c))
  {
    InversePower(R, w, w', |s|, j);
    TwiceTransformed(R, s, w, Mirror(|s|, j));
    MulTimes(R, |s|, c, s[j]);
    assert Law(R, (c, s[j], c));
  }

  /** Pairing a spectrum with c at the inverse root is N times the inner product of s and c. */
  lemma {:induction false} PairingInner<T(!new)>(R: Ring<T>, s: seq<T>, c: seq<T>, w: T, w': T, m: nat)
    requires Commutative(R) && PrincipalRoot(R, w, |s|) && R.mul(w, w') == R.one
    requires m <= |s| == |c|
    ensures Pairing(R, Spectrum(R, s, w), c, w', |s|, m) == Times(R, |s|, Inner(R, s, c, m))
    decreases m
  {
    var N := |s|;
    if m == 0 {
      PairingZero(R, Spectrum(R, s, w), c, w', N);
      TimesZero(R, N);
    } else {
      var j := m - 1;
      PairingInner(R, s, c, w, w', j);
      PairingGrow(R, Spectrum(R, s, w), c, w', N, j);
      TermEnergy(R, s, w, w', c[j], j);
      TimesOfAdd(R, N, Inner(R, s, c, j), R.mul(s[j], c[j]));
      InnerLast(R, s, c, j);
    }
  }

  lemma {:induction false} InnerPairing<T(!new)>(R: Ring<T>, X: seq<T>, Y: seq<T>, c: seq<T>, w': T, n: nat)
    requires n <= |X| && Y == Spectrum(R, c, w') && |X| == |c|
    ensures Inner(R, X, Y, n) == Pairing(R, X, c, w', n, |c|)
    decreases n
  {
    if n == 0 {
    } else {
      InnerPairing(R, X, Y, c, w', n - 1);
    }
  }

  lemma {:induction false} TimesZero<T(!new)>(R: Ring<T>, n: nat)
    requires Commutative(R)
    ensures Times(R, n, R.zero) == R.zero
    decreases n
  {
    if n > 0 {
      TimesZero(R, n - 1);
      assert Law(R, (R.zero, R.zero, R.zero));
    }
  }

  lemma {:induction false} TimesOfAdd<T(!new)>(R: Ring<T>, n: nat, a: T, b: T)
    requires Commutative(R)
    ensures Times(R, n, R.add(a, b)) == R.add(Times(R, n, a), Times(R, n, b))
    decreases n
  {
    if n == 0 {
      assert Law(R, (R.zero, R.zero, R.zero));
    } else {
      TimesOfAdd(R, n - 1, a, b);
      AddSwap(R, Times(R, n - 1, a), Times(R, n - 1, b), a, b);
    }
  }

  lemma ConjugateSpectrum<T(!new)>(R: Ring<T>, conj: T -> T, s: seq<T>, c: seq<T>, w: T)
    requires Conjugation(R, conj) && AreConjugates(conj, s, c)
    ensures AreConjugates(conj, Spectrum(R, s, w), Spectrum(R, c, conj(w)))
  {
    forall k | 0 <= k < |s|
      ensures Dft(R, c, conj(w), k) == conj(Dft(R, s, w, k))
    {
      ConjugateEval(R, conj, s, c, Pow(R, w, k), |s|);
      ConjugatePow(R, conj, w, k);
    }
  }

  /** Parseval: a spectrum times its conjugate sums to N times the energy of the input. */
  lemma EnergyConserved<T(!new)>(R: Ring<T>, conj: T -> T, s: seq<T>, c: seq<T>, X: seq<T>, Y: seq<T>, w: T)
    requires Commutative(R) && Conjugation(R, conj) && PrincipalRoot(R, w, |s|)
    requires R.mul(w, conj(w)) == R.one
    requires X == Spectrum(R, s, w) && AreConjugates(conj, s, c) && AreConjugates(conj, X, Y)
    ensures Inner(R, X, Y, |s|) == Times(R, |s|, Inner(R, s, c, |s|))
  {
    ConjugateSpectrum(R, conj, s, c, w);
    assert Y == Spectrum(R, c, conj(w));
    InnerPairing(R, X, Y, c, conj(w), |s|);
    PairingInner(R, s, c, w, conj(w), |s|);
  }
}
