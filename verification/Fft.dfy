/** The recursive transform and its inverse, in place over strided views of two buffers. */
module Fft {
  import opened Rings
  import opened Fourier
  import opened ComplexNumbers

  const TWO_PI: real := 6.2831853071795864769252867665590057683943

  /** cos(2 pi k / N) - i sin(2 pi k / N), from whatever cosine and sine the library supplies. */
  function Twiddle(cosine: real -> real, sine: real -> real, k: nat, N: nat): Complex
    requires N > 0
  {
    var angle := TWO_PI * k as real / N as real;
    Complex(cosine(angle), -sine(angle))
  }

  /**
   The library functions are exact for a transform of size N at root w: at every size N, N/2, ..., 4
   the twiddle factors are the powers of the root of that size.
   */
  ghost predicate ExactTwiddles(R: Ring<Complex>, cosine: real -> real, sine: real -> real, w: Complex, N: nat)
    decreases N
  {
    N > 2 ==>
      && (forall k: nat :: k < N / 2 ==> Twiddle(cosine, sine, k, N) == Pow(R, w, k))
      && ExactTwiddles(R, cosine, sine, R.mul(w, w), N / 2)
  }

  // ----- Strided positions -----

  ghost predicate StrideAt(P: seq<nat>, offset: nat, delta: nat, j: nat) {
    j < |P| ==> P[j] == offset + j * delta
  }

  /** P lists the positions offset, offset + delta, offset + 2 delta, ... */
  ghost predicate IsStride(P: seq<nat>, offset: nat, delta: nat) {
    delta > 0 && forall j: nat {:trigger StrideAt(P, offset, delta, j)} :: StrideAt(P, offset, delta, j)
  }

  ghost predicate Below(P: seq<nat>, length: nat) {
    forall j :: 0 <= j < |P| ==> P[j] < length
  }

  ghost predicate Distinct(P: seq<nat>) {
    forall i, j :: 0 <= i < j < |P| ==> P[i] != P[j]
  }

  /** The values of s at the positions P. */
  ghost function View(s: seq<Complex>, P: seq<nat>): (r: seq<Complex>)
    requires Below(P, |s|)
    ensures |r| == |P|
    ensures forall j :: 0 <= j < |P| ==> r[j] == s[P[j]]
  {
    seq(|P|, j requires 0 <= j < |P| => s[P[j]])
  }

  lemma StrideDistinct(P: seq<nat>, offset: nat, delta: nat)
    requires IsStride(P, offset, delta)
    ensures Distinct(P)
  {
    forall i, j | 0 <= i < j < |P|
      ensures P[i] != P[j]
    {
      assert StrideAt(P, offset, delta, i) && StrideAt(P, offset, delta, j);
      assert (j - i) * delta > 0;
    }
  }

  /** The even and odd positions of a stride are strides of twice the step. */
  lemma StrideHalves(P: seq<nat>, offset: nat, delta: nat)
    requires IsStride(P, offset, delta) && |P| % 2 == 0
    ensures IsStride(Evens(P), offset, 2 * delta) && IsStride(Odds(P), offset + delta, 2 * delta)
  {
    forall j: nat
      ensures StrideAt(Evens(P), offset, 2 * delta, j)
    {
      assert StrideAt(P, offset, delta, 2 * j);
      assert j * (2 * delta) == 2 * j * delta;
    }
    var odd := offset + delta;
    forall j: nat
      ensures StrideAt(Odds(P), odd, 2 * delta, j)
    {
      assert StrideAt(P, offset, delta, 2 * j + 1);
      assert delta + j * (2 * delta) == (2 * j + 1) * delta;
    }
  }

  lemma ViewHalves(s: seq<Complex>, P: seq<nat>)
    requires Below(P, |s|) && |P| % 2 == 0
    ensures Below(Evens(P), |s|) && Below(Odds(P), |s|)
    ensures View(s, Evens(P)) == Evens(View(s, P)) && View(s, Odds(P)) == Odds(View(s, P))
  {}

  /** Outside the positions P nothing differs. */
  ghost predicate SameOff(a: seq<Complex>, b: seq<Complex>, P: seq<nat>) {
    |a| == |b| && forall i :: 0 <= i < |a| && i !in P ==> a[i] == b[i]
  }

  /** Changing the even and then the odd half changes nothing else, and the odd half spares the even one. */
  lemma HalvesApart(a: seq<Complex>, b: seq<Complex>, c: seq<Complex>, P: seq<nat>)
    requires |P| % 2 == 0 && SameOff(a, b, Evens(P)) && SameOff(b, c, Odds(P))
    ensures SameOff(a, c, P)
    ensures Distinct(P) && Below(Evens(P), |a|) ==> View(b, Evens(P)) == View(c, Evens(P))
  {
    forall i | 0 <= i < |a| && i !in P
      ensures a[i] == c[i]
    {
      assert i !in Evens(P) && i !in Odds(P);
    }
  }

  /** The four positions of butterfly k: two outputs on the stride, two inputs on its halves. */
  method ButterflyIndices(offset: nat, delta: nat, k: nat, N2: nat, ghost P: seq<nat>)
      returns (k00: nat, k01: nat, k10: nat, k11: nat)
    requires IsStride(P, offset, delta) && |P| == 2 * N2 && k < N2
    ensures k00 == P[k] && k01 == P[k + N2]
    ensures k10 == Evens(P)[k] && k11 == Odds(P)[k]
  {
    k00 := offset + k * delta;
    k01 := k00 + N2 * delta;
    k10 := offset + 2 * k * delta;
    k11 := k10 + delta;
    assert StrideAt(P, offset, delta, k) && StrideAt(P, offset, delta, k + N2);
    assert StrideAt(P, offset, delta, 2 * k) && StrideAt(P, offset, delta, 2 * k + 1);
  }

  // ----- The transform -----

  ghost predicate RotatedAt(R: Ring<Complex>, cosine: real -> real, sine: real -> real,
                            O: seq<Complex>, T: seq<Complex>, j: nat)
    requires |T| == |O|
  {
    j < |O| ==> T[j] == R.mul(Twiddle(cosine, sine, j, 2 * |O|), O[j])
  }

  /** T is O with every entry multiplied by its twiddle factor. */
  ghost predicate Rotated(R: Ring<Complex>, cosine: real -> real, sine: real -> real,
                          O: seq<Complex>, T: seq<Complex>) {
    && |T| == |O|
    && forall j: nat {:trigger RotatedAt(R, cosine, sine, O, T, j)} :: RotatedAt(R, cosine, sine, O, T, j)
  }

  ghost predicate ButterflyAt(R: Ring<Complex>, G: seq<Complex>, E: seq<Complex>, T: seq<Complex>, j: nat)
    requires |E| == |T| && |G| == 2 * |E|
  {
    j < |E| ==> G[j] == R.add(E[j], T[j]) && G[j + |E|] == R.Sub(E[j], T[j])
  }

  /** G is one butterfly stage over the half-size transform E and the rotated one T. */
  ghost predicate Butterflies(R: Ring<Complex>, G: seq<Complex>, E: seq<Complex>, T: seq<Complex>) {
    && |E| == |T| && |G| == 2 * |E|
    && forall j: nat {:trigger ButterflyAt(R, G, E, T, j)} :: ButterflyAt(R, G, E, T, j)
  }

  /** Multiplies one value by its twiddle factor. */
  method Rotate(k: nat, N: nat, b: Complex, cosine: real -> real, sine: real -> real,
                ghost R: Ring<Complex>, ghost O: seq<Complex>, ghost T: seq<Complex>) returns (tmp: Complex)
    requires IsComplexField(R) && Rotated(R, cosine, sine, O, T)
    requires N == 2 * |O| && k < |O| && b == O[k]
    ensures tmp == T[k]
  {
    var angle := TWO_PI * k as real / N as real;
    var cs, sn := cosine(angle), sine(angle);
    tmp := Complex(cs * b.re + sn * b.im, cs * b.im - sn * b.re);
    ghost var z := Twiddle(cosine, sine, k, N);
    assert z == Complex(cs, -sn);
    RotationIsProduct(cs, sn, b);
    assert OperationsAt(R, z, b);
    assert RotatedAt(R, cosine, sine, O, T, k);
  }

  lemma RotationIsProduct(cs: real, sn: real, b: Complex)
    ensures Complex(cs * b.re + sn * b.im, cs * b.im - sn * b.re) == Product(Complex(cs, -sn), b)
  {
    assert -sn * b.im == -(sn * b.im) && -sn * b.re == -(sn * b.re);
  }

  /** Combines the half-size transforms held in XX on the two half strides into X. */
  method Combine(N: nat, offset: nat, delta: nat, X: array<Complex>, XX: array<Complex>,
                 cosine: real -> real, sine: real -> real,
                 ghost P: seq<nat>, ghost E: seq<Complex>, ghost O: seq<Complex>, ghost T: seq<Complex>,
                 ghost G: seq<Complex>, ghost R: Ring<Complex>)
    requires N % 2 == 0 && N > 0 && X != XX && |P| == N
    requires IsStride(P, offset, delta) && Distinct(P) && Below(P, X.Length) && Below(P, XX.Length)
    requires IsComplexField(R) && |E| == |O| == N / 2
    requires Rotated(R, cosine, sine, O, T) && Butterflies(R, G, E, T)
    requires Below(Evens(P), XX.Length) && View(XX[..], Evens(P)) == E
    requires Below(Odds(P), XX.Length) && View(XX[..], Odds(P)) == O
    modifies X
    ensures View(X[..], P) == G
    ensures SameOff(old(X[..]), X[..], P)
  {
    var N2 := N / 2;
    for k := 0 to N2
      invariant forall j :: 0 <= j < N && (j < k || N2 <= j < N2 + k) ==> X[P[j]] == G[j]
      invariant SameOff(old(X[..]), X[..], P)
    {
      CombineOne(N, k, offset, delta, X, XX, cosine, sine, P, E, O, T, G, R);
    }
  }

  /** One butterfly: entries k and k + N/2 of the stride. */
  method CombineOne(N: nat, k: nat, offset: nat, delta: nat, X: array<Complex>, XX: array<Complex>,
                    cosine: real -> real, sine: real -> real,
                    ghost P: seq<nat>, ghost E: seq<Complex>, ghost O: seq<Complex>, ghost T: seq<Complex>,
                    ghost G: seq<Complex>, ghost R: Ring<Complex>)
    requires N % 2 == 0 && k < N / 2 && X != XX && |P| == N
    requires IsStride(P, offset, delta) && Distinct(P) && Below(P, X.Length) && Below(P, XX.Length)
    requires IsComplexField(R) && |E| == |O| == N / 2
    requires Rotated(R, cosine, sine, O, T) && Butterflies(R, G, E, T)
    requires Below(Evens(P), XX.Length) && View(XX[..], Evens(P)) == E
    requires Below(Odds(P), XX.Length) && View(XX[..], Odds(P)) == O
    modifies X
    ensures X[P[k]] == G[k] && X[P[k + N / 2]] == G[k + N / 2]
    ensures forall i :: 0 <= i < X.Length && i != P[k] && i != P[k + N / 2] ==> X[i] == old(X[i])
  {
    var k00, k01, k10, k11 := ButterflyIndices(offset, delta, k, N / 2, P);
    assert XX[k10] == E[k] && XX[k11] == O[k];
    var tmp := Rotate(k, N, XX[k11], cosine, sine, R, O, T);
    assert ButterflyAt(R, G, E, T, k) && OperationsAt(R, E[k], T[k]);
    X[k01] := Plus(XX[k10], Negated(tmp));
    X[k00] := Plus(XX[k10], tmp);
  }

  ghost predicate TurnedAt(R: Ring<Complex>, w: Complex, O: seq<Complex>, T: seq<Complex>, j: nat)
    requires |T| == |O|
  {
    j < |O| ==> T[j] == R.mul(Pow(R, w, j), O[j])
  }

  /** T is O with entry j multiplied by w^j. */
  ghost predicate Turned(R: Ring<Complex>, w: Complex, O: seq<Complex>, T: seq<Complex>) {
    |T| == |O| && forall j: nat {:trigger TurnedAt(R, w, O, T, j)} :: TurnedAt(R, w, O, T, j)
  }

  ghost function Turn(R: Ring<Complex>, w: Complex, O: seq<Complex>): (T: seq<Complex>)
    ensures |T| == |O|
  {
    seq(|O|, j requires 0 <= j < |O| => R.mul(Pow(R, w, j), O[j]))
  }

  lemma TurnTurns(R: Ring<Complex>, w: Complex, O: seq<Complex>)
    ensures Turned(R, w, O, Turn(R, w, O))
  {}

  /** Exact twiddle factors are the powers of the root. */
  lemma TurnedIsRotated(R: Ring<Complex>, cosine: real -> real, sine: real -> real, w: Complex, N: nat,
                        O: seq<Complex>, T: seq<Complex>)
    requires N == 2 * |O| && N > 2 && ExactTwiddles(R, cosine, sine, w, N) && Turned(R, w, O, T)
    ensures Rotated(R, cosine, sine, O, T)
  {
    forall j: nat
      ensures RotatedAt(R, cosine, sine, O, T, j)
    {
      assert TurnedAt(R, w, O, T, j);
    }
  }

  lemma TurnedButterflies(R: Ring<Complex>, s: seq<Complex>, w: Complex, T: seq<Complex>)
    requires Commutative(R) && PrincipalRoot(R, w, |s|)
    requires Turned(R, w, Spectrum(R, Odds(s), R.mul(w, w)), T)
    ensures Butterflies(R, Spectrum(R, s, w), Spectrum(R, Evens(s), R.mul(w, w)), T)
  {
    var E, G, O := Spectrum(R, Evens(s), R.mul(w, w)), Spectrum(R, s, w), Spectrum(R, Odds(s), R.mul(w, w));
    forall j: nat
      ensures ButterflyAt(R, G, E, T, j)
    {
      if j < |E| {
        assert TurnedAt(R, w, O, T, j);
        Butterfly(R, s, w, j);
      }
    }
  }

  /** Both half transforms under exact twiddles make a full transform. */
  lemma SpectrumButterflies(R: Ring<Complex>, cosine: real -> real, sine: real -> real, s: seq<Complex>, w: Complex,
                            O: seq<Complex>) returns (T: seq<Complex>)
    requires Commutative(R) && PrincipalRoot(R, w, |s|) && |s| > 2 && ExactTwiddles(R, cosine, sine, w, |s|)
    requires O == Spectrum(R, Odds(s), R.mul(w, w))
    ensures Rotated(R, cosine, sine, O, T)
    ensures Butterflies(R, Spectrum(R, s, w), Spectrum(R, Evens(s), R.mul(w, w)), T)
  {
    T := Turn(R, w, O);
    TurnTurns(R, w, O);
    TurnedIsRotated(R, cosine, sine, w, |s|, O, T);
    TurnedButterflies(R, s, w, T);
  }

  lemma HalfSize(R: Ring<Complex>, cosine: real -> real, sine: real -> real, w: Complex, N: nat,
                 P: seq<nat>, offset: nat, delta: nat)
    requires Commutative(R) && PrincipalRoot(R, w, N) && N > 2 && ExactTwiddles(R, cosine, sine, w, N)
    requires |P| == N && IsStride(P, offset, delta)
    ensures PrincipalRoot(R, R.mul(w, w), N / 2) && ExactTwiddles(R, cosine, sine, R.mul(w, w), N / 2)
    ensures IsStride(Evens(P), offset, 2 * delta) && IsStride(Odds(P), offset + delta, 2 * delta)
    ensures Distinct(P)
  {
    RootSquared(R, w, N);
    StrideDistinct(P, offset, delta);
    StrideHalves(P, offset, delta);
  }

  /** The two-point transform at positions offset and offset + delta. */
  method TwoPointFft(offset: nat, delta: nat, x: array<Complex>, X: array<Complex>,
                     ghost R: Ring<Complex>, ghost w: Complex, ghost P: seq<nat>)
    requires x != X && |P| == 2 && IsStride(P, offset, delta) && Below(P, x.Length) && Below(P, X.Length)
    requires IsComplexField(R) && PrincipalRoot(R, w, 2)
    modifies X
    ensures Below(P, x.Length) && Below(P, X.Length)
    ensures View(X[..], P) == Spectrum(R, View(x[..], P), w)
    ensures SameOff(old(X[..]), X[..], P)
  {
    var k00 := offset;
    var k01 := k00 + delta;
    assert StrideAt(P, offset, delta, 0) && StrideAt(P, offset, delta, 1);
    X[k01] := Plus(x[k00], Negated(x[k01]));
    X[k00] := Plus(x[k00], x[k01]);
    ghost var s := View(x[..], P);
    TwoPoint(R, s, w);
    assert OperationsAt(R, s[0], s[1]);
  }

  /** The two half-size recursive calls, into XX with X as scratch. */
  method HalfTransforms(N: nat, offset: nat, delta: nat, x: array<Complex>, X: array<Complex>, XX: array<Complex>,
                        cosine: real -> real, sine: real -> real,
                        ghost R: Ring<Complex>, ghost w: Complex, ghost P: seq<nat>)
    requires x != X && x != XX && X != XX && N > 2
    requires |P| == N && IsStride(P, offset, delta)
    requires Below(P, x.Length) && Below(P, X.Length) && Below(P, XX.Length)
    requires IsComplexField(R) && PrincipalRoot(R, w, N) && ExactTwiddles(R, cosine, sine, w, N)
    modifies X, XX
    ensures Below(Evens(P), x.Length) && Below(Odds(P), x.Length)
    ensures Below(Evens(P), XX.Length) && Below(Odds(P), XX.Length)
    ensures View(XX[..], Evens(P)) == Spectrum(R, View(x[..], Evens(P)), R.mul(w, w))
    ensures View(XX[..], Odds(P)) == Spectrum(R, View(x[..], Odds(P)), R.mul(w, w))
    ensures SameOff(old(X[..]), X[..], P)
    ensures SameOff(old(XX[..]), XX[..], P)
    decreases N, 0
  {
    var N2 := N / 2;
    ghost var ww, Pe, Po := R.mul(w, w), Evens(P), Odds(P);
    HalfSize(R, cosine, sine, w, N, P, offset, delta);
    ghost var X0, XX0 := X[..], XX[..];
    FftRec(N2, offset, 2 * delta, x, XX, X, cosine, sine, R, ww, Pe);
    ghost var X1, XX1 := X[..], XX[..];
    FftRec(N2, offset + delta, 2 * delta, x, XX, X, cosine, sine, R, ww, Po);
    HalvesApart(X0, X1, X[..], P);
    HalvesApart(XX0, XX1, XX[..], P);
  }

  /**
   The recursion: X receives at the positions P the transform of x viewed at P, XX is scratch, and
   nothing outside P is touched in either.
   */
  method FftRec(N: nat, offset: nat, delta: nat, x: array<Complex>, X: array<Complex>, XX: array<Complex>,
                cosine: real -> real, sine: real -> real,
                ghost R: Ring<Complex>, ghost w: Complex, ghost P: seq<nat>)
    requires x != X && x != XX && X != XX
    requires |P| == N && IsStride(P, offset, delta)
    requires Below(P, x.Length) && Below(P, X.Length) && Below(P, XX.Length)
    requires IsComplexField(R) && PrincipalRoot(R, w, N) && ExactTwiddles(R, cosine, sine, w, N)
    modifies X, XX
    ensures Below(P, x.Length) && Below(P, X.Length)
    ensures View(X[..], P) == Spectrum(R, View(x[..], P), w)
    ensures SameOff(old(X[..]), X[..], P)
    ensures SameOff(old(XX[..]), XX[..], P)
    decreases N, 1
  {
    if N != 2 {
      ghost var s, ww := View(x[..], P), R.mul(w, w);
      HalfTransforms(N, offset, delta, x, X, XX, cosine, sine, R, w, P);
      ghost var E, O := Spectrum(R, Evens(s), ww), Spectrum(R, Odds(s), ww);
      ghost var T := SpectrumButterflies(R, cosine, sine, s, w, O);
      StrideDistinct(P, offset, delta);
      ViewHalves(x[..], P);
      Combine(N, offset, delta, X, XX, cosine, sine, P, E, O, T, Spectrum(R, s, w), R);
    } else {
      TwoPointFft(offset, delta, x, X, R, w, P);
    }
  }

  // ----- The public entry points -----

  /** What the callers rely on: sizes are powers of two, w is the root, cosine and sine are exact. */
  ghost predicate Exact(R: Ring<Complex>, cosine: real -> real, sine: real -> real, w: Complex, N: nat) {
    IsComplexField(R) && PrincipalRoot(R, w, N) && ExactTwiddles(R, cosine, sine, w, N)
  }

  method Fft(N: nat, x: array<Complex>, X: array<Complex>, cosine: real -> real, sine: real -> real,
             ghost R: Ring<Complex>, ghost w: Complex)
    requires x != X && N <= x.Length && N <= X.Length && Exact(R, cosine, sine, w, N)
    modifies X
    ensures X[..N] == Spectrum(R, x[..N], w)
    ensures X[N..] == old(X[N..])
  {
    var XX := new Complex[N];
    ghost var P := seq(N, i requires 0 <= i => i);
    forall j: nat
      ensures StrideAt(P, 0, 1, j)
    {}
    FftRec(N, 0, 1, x, X, XX, cosine, sine, R, w, P);
    assert View(x[..], P) == x[..N];
    assert View(X[..], P) == X[..N];
  }

  ghost predicate MirroredAt(N: nat, s: seq<Complex>, G: seq<Complex>, j: nat)
    requires 0 < N <= |s| && |G| == N
  {
    j < N ==> G[j] == DividedBy(s[Mirror(N, j)], N as real)
  }

  /** G is the first N entries of s, mirrored and divided by N. */
  ghost predicate Mirrored(N: nat, s: seq<Complex>, G: seq<Complex>) {
    0 < N <= |s| && |G| == N && forall j: nat {:trigger MirroredAt(N, s, G, j)} :: MirroredAt(N, s, G, j)
  }

  lemma MirrorOf(N: nat, s: seq<Complex>) returns (G: seq<Complex>)
    requires 0 < N <= |s|
    ensures Mirrored(N, s, G)
  {
    G := seq(N, j requires 0 <= j < N => DividedBy(s[Mirror(N, j)], N as real));
  }

  /** Reverses entries 1..N-1 and divides every entry by N. */
  method SwapAndScale(N: nat, x: array<Complex>)
    requires N >= 2 && N % 2 == 0 && N <= x.Length
    modifies x
    ensures Mirrored(N, old(x[..]), x[..N])
    ensures x[N..] == old(x[N..])
  {
    var N2 := N / 2;
    ghost var s := x[..];
    ghost var G := MirrorOf(N, s);
    Scale(N, x, 0, s, G);
    Scale(N, x, N2, s, G);
    for i := 1 to N2
      invariant forall j :: 0 <= j < N && (j < i || j == N2 || N - i < j) ==> x[j] == G[j]
      invariant forall j :: i <= j <= N - i && j != N2 ==> x[j] == s[j]
      invariant forall j :: N <= j < x.Length ==> x[j] == s[j]
    {
      SwapScaled(N, x, i, s, G);
    }
    assert x[..N] == G;
  }

  /** Divides an entry that stays where it is. */
  method Scale(N: nat, x: array<Complex>, i: nat, ghost s: seq<Complex>, ghost G: seq<Complex>)
    requires Mirrored(N, s, G) && i < N <= x.Length && Mirror(N, i) == i && x[i] == s[i]
    modifies x
    ensures x[i] == G[i] && forall k :: 0 <= k < x.Length && k != i ==> x[k] == old(x[k])
  {
    assert MirroredAt(N, s, G, i);
    x[i] := DividedBy(x[i], N as real);
  }

  /** Swaps entries i and N - i and divides both. */
  method SwapScaled(N: nat, x: array<Complex>, i: nat, ghost s: seq<Complex>, ghost G: seq<Complex>)
    requires Mirrored(N, s, G) && 0 < i < N - i && N <= x.Length && x[i] == s[i] && x[N - i] == s[N - i]
    modifies x
    ensures x[i] == G[i] && x[N - i] == G[N - i]
    ensures forall k :: 0 <= k < x.Length && k != i && k != N - i ==> x[k] == old(x[k])
  {
    assert MirroredAt(N, s, G, i) && MirroredAt(N, s, G, N - i);
    var tmp := DividedBy(x[i], N as real);
    x[i] := DividedBy(x[N - i], N as real);
    x[N - i] := tmp;
  }

  lemma MirroredIsInverse(R: Ring<Complex>, S: seq<Complex>, w: Complex, i: nat)
    requires IsComplexField(R) && PrincipalRoot(R, w, |S|) && i < |S|
    ensures DividedBy(Dft(R, S, w, Mirror(|S|, i)), |S| as real) == R.mul(Nth(|S|), Dft(R, S, Conj(w), i))
  {
    var d := Dft(R, S, Conj(w), i);
    ConjIsInverse(R, w, |S|);
    InversePower(R, w, Conj(w), |S|, i);
    assert OperationsAt(R, Nth(|S|), d);
    DivisionIsProduct(d, |S|);
  }

  /** A mirrored and scaled spectrum is the inverse spectrum. */
  lemma MirroredSpectrum(R: Ring<Complex>, S: seq<Complex>, w: Complex, y: seq<Complex>, G: seq<Complex>)
    requires IsComplexField(R) && PrincipalRoot(R, w, |S|)
    requires |S| <= |y| && y[..|S|] == Spectrum(R, S, w) && Mirrored(|S|, y, G)
    ensures G == InverseSpectrum(R, S, Conj(w), Nth(|S|))
  {
    forall i | 0 <= i < |S|
      ensures G[i] == InverseSpectrum(R, S, Conj(w), Nth(|S|))[i]
    {
      assert MirroredAt(|S|, y, G, i);
      assert y[Mirror(|S|, i)] == y[..|S|][Mirror(|S|, i)];
      MirroredIsInverse(R, S, w, i);
    }
  }

  method Ifft(N: nat, x: array<Complex>, X: array<Complex>, cosine: real -> real, sine: real -> real,
              ghost R: Ring<Complex>, ghost w: Complex)
    requires x != X && N <= x.Length && N <= X.Length && Exact(R, cosine, sine, w, N)
    modifies x
    ensures x[..N] == InverseSpectrum(R, X[..N], Conj(w), Nth(N))
    ensures x[N..] == old(x[N..])
  {
    Fft(N, X, x, cosine, sine, R, w);
    ghost var S, y := X[..N], x[..];
    SwapAndScale(N, x);
    MirroredSpectrum(R, S, w, y, x[..N]);
  }

  // ----- What the transforms are for -----

  /** The inverse transform of the transform is the input, exactly. */
  method TransformAndBack(N: nat, x: array<Complex>, X: array<Complex>, y: array<Complex>,
                          cosine: real -> real, sine: real -> real, ghost R: Ring<Complex>, ghost w: Complex)
    requires x != X && y != X && x != y
    requires N <= x.Length && N <= X.Length && N <= y.Length && Exact(R, cosine, sine, w, N)
    modifies X, y
    ensures y[..N] == x[..N]
  {
    Fft(N, x, X, cosine, sine, R, w);
    Ifft(N, y, X, cosine, sine, R, w);
    ComplexInverses(R, w, N);
    InverseAfterForward(R, x[..N], w, Conj(w), Nth(N));
  }

  /** The transform of the inverse transform is the given spectrum, exactly. */
  method BackAndTransform(N: nat, X: array<Complex>, x: array<Complex>, Y: array<Complex>,
                          cosine: real -> real, sine: real -> real, ghost R: Ring<Complex>, ghost w: Complex)
    requires x != X && Y != x && X != Y
    requires N <= x.Length && N <= X.Length && N <= Y.Length && Exact(R, cosine, sine, w, N)
    modifies x, Y
    ensures Y[..N] == X[..N]
  {
    Ifft(N, x, X, cosine, sine, R, w);
    Fft(N, x, Y, cosine, sine, R, w);
    ComplexInverses(R, w, N);
    ForwardAfterInverse(R, X[..N], w, Conj(w), Nth(N));
  }

  function Packed(samples: seq<real>): (s: seq<Complex>)
    ensures |s| == |samples|
    ensures forall j :: 0 <= j < |s| ==> s[j] == Complex(samples[j], 0.0)
  {
    seq(|samples|, j requires 0 <= j < |samples| => Complex(samples[j], 0.0))
  }

  method Pack(dataIn: array<real>) returns (x: array<Complex>)
    ensures fresh(x) && x[..] == Packed(dataIn[..])
  {
    x := new Complex[dataIn.Length];
    for i := 0 to dataIn.Length
      invariant forall j :: 0 <= j < i ==> x[j] == Complex(dataIn[j], 0.0)
    {
      x[i] := Complex(dataIn[i], 0.0);
    }
  }

  method Unpack(X: array<Complex>, outRe: array<real>, outIm: array<real>)
    requires X.Length == outRe.Length == outIm.Length && outRe != outIm
    modifies outRe, outIm
    ensures forall k :: 0 <= k < X.Length ==> outRe[k] == X[k].re && outIm[k] == X[k].im
  {
    for i := 0 to outRe.Length
      invariant forall j :: 0 <= j < i ==> outRe[j] == X[j].re
    {
      outRe[i] := X[i].re;
    }
    for i := 0 to outIm.Length
      invariant forall j :: 0 <= j < X.Length ==> outRe[j] == X[j].re
      invariant forall j :: 0 <= j < i ==> outIm[j] == X[j].im
    {
      outIm[i] := X[i].im;
    }
  }

  /**
   The wrapper for real samples: packs them with zero imaginary parts, transforms, and unpacks the
   real and imaginary parts.
   */
  method CalcFft(numSamples: nat, dataIn: array<real>, outRe: array<real>, outIm: array<real>,
                 cosine: real -> real, sine: real -> real, ghost R: Ring<Complex>, ghost w: Complex)
    requires dataIn.Length == outRe.Length == outIm.Length == numSamples
    requires dataIn != outRe && dataIn != outIm && outRe != outIm && Exact(R, cosine, sine, w, numSamples)
    modifies outRe, outIm
    ensures forall k :: 0 <= k < numSamples ==>
              Complex(outRe[k], outIm[k]) == Spectrum(R, Packed(dataIn[..]), w)[k]
    ensures forall k :: 0 < k < numSamples ==>
              outRe[numSamples - k] == outRe[k] && outIm[numSamples - k] == -outIm[k]
  {
    ghost var s := Packed(dataIn[..]);
    var x := Pack(dataIn);
    var X := new Complex[numSamples];
    assert x[..] == x[..numSamples];
    Fft(numSamples, x, X, cosine, sine, R, w);
    assert X[..] == Spectrum(R, s, w) by { assert X[..] == X[..numSamples]; }
    RealSpectrum(R, s, w);
    Unpack(X, outRe, outIm);
    assert forall k :: 0 <= k < numSamples ==> X[k] == Spectrum(R, s, w)[k];
    forall k | 0 < k < numSamples
      ensures outRe[numSamples - k] == outRe[k] && outIm[numSamples - k] == -outIm[k]
    {
      assert X[numSamples - k] == Conj(X[k]);
    }
  }

  /** The spectrum of real samples is conjugate symmetric. */
  lemma RealSpectrum(R: Ring<Complex>, s: seq<Complex>, w: Complex)
    requires IsComplexField(R) && PrincipalRoot(R, w, |s|)
    requires forall j :: 0 <= j < |s| ==> s[j].im == 0.0
    ensures forall k :: 0 < k < |s| ==> Spectrum(R, s, w)[|s| - k] == Conj(Spectrum(R, s, w)[k])
  {
    ConjIsConjugation(R);
    ConjIsInverse(R, w, |s|);
    assert forall j :: 0 <= j < |s| ==> Conj(s[j]) == s[j];
    forall k | 0 < k < |s|
      ensures Spectrum(R, s, w)[|s| - k] == Conj(Spectrum(R, s, w)[k])
    {
      ConjugateSymmetry(R, Conj, s, w, k);
    }
  }

  /** The sum of |s[j]|^2 over j < n. */
  ghost function PowerUpTo(s: seq<Complex>, n: nat): real
    requires n <= |s|
    decreases n
  {
    if n == 0 then 0.0 else PowerUpTo(s, n - 1) + Norm(s[n - 1])
  }

  lemma {:induction false} InnerIsPower(R: Ring<Complex>, s: seq<Complex>, c: seq<Complex>, n: nat)
    requires IsComplexField(R) && AreConjugates(Conj, s, c) && n <= |s|
    ensures Inner(R, s, c, n) == Complex(PowerUpTo(s, n), 0.0)
    decreases n
  {
    if n == 0 {
      ConstantsAreComplex(R);
    } else {
      var i := n - 1;
      InnerIsPower(R, s, c, i);
      InnerLast(R, s, c, i);
      assert OperationsAt(R, s[i], c[i]) && OperationsAt(R, Inner(R, s, c, i), R.mul(s[i], c[i]));
    }
  }

  lemma SpectrumInner(R: Ring<Complex>, s: seq<Complex>, w: Complex) returns (c: seq<Complex>, Y: seq<Complex>)
    requires IsComplexField(R) && PrincipalRoot(R, w, |s|)
    ensures AreConjugates(Conj, s, c) && AreConjugates(Conj, Spectrum(R, s, w), Y)
    ensures Inner(R, Spectrum(R, s, w), Y, |s|) == Times(R, |s|, Inner(R, s, c, |s|))
  {
    var X := Spectrum(R, s, w);
    c := seq(|s|, j requires 0 <= j < |s| => Conj(s[j]));
    Y := seq(|s|, k requires 0 <= k < |s| => Conj(X[k]));
    ConjIsConjugation(R);
    ConjIsInverse(R, w, |s|);
    EnergyConserved(R, Conj, s, c, X, Y, w);
  }

  lemma TimesOfReal(R: Ring<Complex>, n: nat, p: real)
    requires IsComplexField(R)
    ensures Times(R, n, Complex(p, 0.0)) == Complex(n as real * p, 0.0)
  {
    TimesIsScale(R, n, n as real, Complex(p, 0.0));
  }

  lemma ScaledPower(R: Ring<Complex>, s: seq<Complex>, w: Complex, n: nat, p: real, q: real)
    requires IsComplexField(R) && PrincipalRoot(R, w, |s|)
    requires n == |s| && p == PowerUpTo(s, n) && q == PowerUpTo(Spectrum(R, s, w), n)
    ensures q == n as real * p
  {
    var c, Y := SpectrumInner(R, s, w);
    InnerIsPower(R, s, c, n);
    InnerIsPower(R, Spectrum(R, s, w), Y, n);
    TimesOfReal(R, n, p);
    assert Complex(q, 0.0) == Complex(n as real * p, 0.0);
  }

  /** The sum of |s[j]|^2. */
  ghost function Power(s: seq<Complex>): real { PowerUpTo(s, |s|) }

  /** Parseval: the power of the spectrum is exactly |s| times the power of the input. */
  lemma PowerConserved(R: Ring<Complex>, s: seq<Complex>, w: Complex)
    requires IsComplexField(R) && PrincipalRoot(R, w, |s|)
    ensures Power(Spectrum(R, s, w)) == |s| as real * Power(s)
  {
    ScaledPower(R, s, w, |s|, Power(s), Power(Spectrum(R, s, w)));
  }
}
