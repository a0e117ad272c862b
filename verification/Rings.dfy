/**
 Commutative rings as records of operations. The laws are stated per triple of elements, and the
 quantified form is triggered only by naming a triple, so proofs say which instances they use.
 */
module Rings {

  datatype Ring<!T> = Ring(zero: T, one: T, add: (T, T) -> T, neg: T -> T, mul: (T, T) -> T) {
    function Sub(a: T, b: T): T { add(a, neg(b)) }
  }

  /** The ring laws at three elements. */
  ghost predicate Law<T(!new)>(R: Ring<T>, t: (T, T, T)) {
    var (a, b, c) := t;
    && R.add(a, b) == R.add(b, a)
    && R.add(R.add(a, b), c) == R.add(a, R.add(b, c))
    && R.add(a, R.zero) == a
    && R.add(a, R.neg(a)) == R.zero
    && R.mul(a, b) == R.mul(b, a)
    && R.mul(R.mul(a, b), c) == R.mul(a, R.mul(b, c))
    && R.mul(a, R.one) == a
    && R.mul(a, R.add(b, c)) == R.add(R.mul(a, b), R.mul(a, c))
  }

  ghost predicate Commutative<T(!new)>(R: Ring<T>) {
    forall t {:trigger Law(R, t)} :: Law(R, t)
  }

  ghost function Pow<T(!new)>(R: Ring<T>, a: T, n: nat): T
    decreases n
  {
    if n == 0 then R.one else R.mul(a, Pow(R, a, n - 1))
  }

  /** a + a + ... + a, n times. */
  ghost function Times<T(!new)>(R: Ring<T>, n: nat, a: T): T
    decreases n
  {
    if n == 0 then R.zero else R.add(Times(R, n - 1, a), a)
  }

  // ----- Addition -----

  lemma AddSwap<T(!new)>(R: Ring<T>, a: T, b: T, c: T, d: T)
    requires Commutative(R)
    ensures R.add(R.add(a, b), R.add(c, d)) == R.add(R.add(a, c), R.add(b, d))
  {
    assert Law(R, (a, b, R.add(c, d)));
    assert Law(R, (b, c, d));
    assert Law(R, (c, b, d));
    assert Law(R, (a, c, R.add(b, d)));
  }

  lemma AddCancel<T(!new)>(R: Ring<T>, a: T, b: T, c: T)
    requires Commutative(R)
    requires R.add(a, b) == R.add(a, c)
    ensures b == c
  {
    var n := R.neg(a);
    assert Law(R, (n, a, b)) && Law(R, (n, a, c)) && Law(R, (a, n, n));
    assert Law(R, (R.zero, b, b)) && Law(R, (R.zero, c, c)) && Law(R, (b, R.zero, b)) && Law(R, (c, R.zero, c));
  }

  lemma MulZero<T(!new)>(R: Ring<T>, a: T)
    requires Commutative(R)
    ensures R.mul(a, R.zero) == R.zero == R.mul(R.zero, a)
  {
    var z, p := R.zero, R.mul(a, R.zero);
    assert Law(R, (z, z, z)) && Law(R, (a, z, z)) && Law(R, (p, z, z));
    AddCancel(R, p, p, z);
  }

  lemma NegUnique<T(!new)>(R: Ring<T>, a: T, b: T)
    requires Commutative(R)
    requires R.add(a, b) == R.zero
    ensures b == R.neg(a)
  {
    assert Law(R, (a, a, a));
    AddCancel(R, a, b, R.neg(a));
  }

  /** (-a) b == -(a b), and (-a)(-a) == a a. */
  lemma MulNeg<T(!new)>(R: Ring<T>, a: T, b: T)
    requires Commutative(R)
    ensures R.mul(R.neg(a), b) == R.neg(R.mul(a, b))
  {
    assert Law(R, (b, a, R.neg(a))) && Law(R, (a, b, b)) && Law(R, (R.neg(a), b, b));
    MulZero(R, b);
    NegUnique(R, R.mul(a, b), R.mul(R.neg(a), b));
  }

  lemma NegNeg<T(!new)>(R: Ring<T>, a: T)
    requires Commutative(R)
    ensures R.neg(R.neg(a)) == a
  {
    assert Law(R, (a, R.neg(a), a));
    NegUnique(R, R.neg(a), a);
  }

  lemma NegSquare<T(!new)>(R: Ring<T>, a: T)
    requires Commutative(R)
    ensures R.mul(R.neg(a), R.neg(a)) == R.mul(a, a)
  {
    MulNeg(R, a, R.neg(a));
    assert Law(R, (a, R.neg(a), a));
    MulNeg(R, a, a);
    NegNeg(R, R.mul(a, a));
  }

  // ----- Powers -----

  lemma MulSwap<T(!new)>(R: Ring<T>, a: T, b: T, c: T, d: T)
    requires Commutative(R)
    ensures R.mul(R.mul(a, b), R.mul(c, d)) == R.mul(R.mul(a, c), R.mul(b, d))
  {
    assert Law(R, (a, b, R.mul(c, d)));
    assert Law(R, (b, c, d));
    assert Law(R, (c, b, d));
    assert Law(R, (a, c, R.mul(b, d)));
  }

  lemma {:induction false} PowAdd<T(!new)>(R: Ring<T>, a: T, m: nat, n: nat)
    requires Commutative(R)
    ensures Pow(R, a, m + n) == R.mul(Pow(R, a, m), Pow(R, a, n))
    decreases m
  {
    if m == 0 {
      assert Law(R, (Pow(R, a, n), R.one, R.one));
    } else {
      PowAdd(R, a, m - 1, n);
      assert Law(R, (a, Pow(R, a, m - 1), Pow(R, a, n)));
    }
  }

  lemma {:induction false} PowOfMul<T(!new)>(R: Ring<T>, a: T, b: T, n: nat)
    requires Commutative(R)
    ensures Pow(R, R.mul(a, b), n) == R.mul(Pow(R, a, n), Pow(R, b, n))
    decreases n
  {
    if n == 0 {
      assert Law(R, (R.one, R.one, R.one));
    } else {
      PowOfMul(R, a, b, n - 1);
      MulSwap(R, a, b, Pow(R, a, n - 1), Pow(R, b, n - 1));
    }
  }

  lemma {:induction false} PowOne<T(!new)>(R: Ring<T>, n: nat)
    requires Commutative(R)
    ensures Pow(R, R.one, n) == R.one
    decreases n
  {
    if n == 0 {
    } else {
      PowOne(R, n - 1);
      assert Law(R, (R.one, R.one, R.one));
    }
  }

  /** Exponents commute: (a^m)^n == (a^n)^m. */
  lemma {:induction false} PowSwap<T(!new)>(R: Ring<T>, a: T, m: nat, n: nat)
    requires Commutative(R)
    ensures Pow(R, Pow(R, a, m), n) == Pow(R, Pow(R, a, n), m)
    decreases m
  {
    if m == 0 {
      PowOne(R, n);
    } else {
      PowSwap(R, a, m - 1, n);
      PowOfMul(R, a, Pow(R, a, m - 1), n);
    }
  }

  lemma PowSquare<T(!new)>(R: Ring<T>, a: T, n: nat)
    requires Commutative(R)
    ensures Pow(R, a, 2 * n) == Pow(R, R.mul(a, a), n)
  {
    PowAdd(R, a, n, n);
    PowOfMul(R, a, a, n);
  }

  // ----- Multiples -----

  lemma {:induction false} TimesAdd<T(!new)>(R: Ring<T>, m: nat, n: nat, a: T)
    requires Commutative(R)
    ensures Times(R, m + n, a) == R.add(Times(R, m, a), Times(R, n, a))
    decreases n
  {
    if n == 0 {
      assert Law(R, (Times(R, m, a), a, a));
    } else {
      TimesAdd(R, m, n - 1, a);
      assert Law(R, (Times(R, m, a), Times(R, n - 1, a), a));
    }
  }

  lemma {:induction false} MulTimes<T(!new)>(R: Ring<T>, n: nat, a: T, b: T)
    requires Commutative(R)
    ensures R.mul(a, Times(R, n, b)) == Times(R, n, R.mul(a, b))
    decreases n
  {
    if n == 0 {
      MulZero(R, a);
    } else {
      MulTimes(R, n - 1, a, b);
      assert Law(R, (a, Times(R, n - 1, b), b));
    }
  }
}
