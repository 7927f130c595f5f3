/**
  Arithmetic in the ring of integers modulo M, in which the twiddle factors
  are the powers of a root w with w^N = 1: congruence is preserved by sums
  and products, and powers obey the usual exponent laws.
 */
module Modular {
  import opened IndexMaps
  import opened Sums

  function Pow(w: int, e: nat): int
  {
    if e == 0 then 1 else w * Pow(w, e - 1)
  }

  /** Two integers that differ by a multiple of M leave the same remainder. */
  lemma ModOfMultipleDiff(x: int, y: int, M: int, t: int)
    requires M > 0 && x - y == M * t
    ensures x % M == y % M
  {
    assert y == M * (y / M) + y % M;
    assert x == M * (y / M + t) + y % M;
    DivModUnique(x, M, y / M + t, y % M);
  }

  lemma ModAddCong(a: int, a': int, b: int, b': int, M: int)
    requires M > 0 && a % M == a' % M && b % M == b' % M
    ensures (a + b) % M == (a' + b') % M
  {
    assert a == M * (a / M) + a % M && a' == M * (a' / M) + a' % M;
    assert b == M * (b / M) + b % M && b' == M * (b' / M) + b' % M;
    var t := (a / M - a' / M) + (b / M - b' / M);
    assert (a + b) - (a' + b') == M * t;
    ModOfMultipleDiff(a + b, a' + b', M, t);
  }

  lemma ModMulCong(a: int, a': int, b: int, M: int)
    requires M > 0 && a % M == a' % M
    ensures (a * b) % M == (a' * b) % M
  {
    assert a == M * (a / M) + a % M && a' == M * (a' / M) + a' % M;
    var t := a / M - a' / M;
    assert a - a' == M * t;
    assert a * b - a' * b == (a - a') * b;
    assert a * b - a' * b == M * (t * b);
    ModOfMultipleDiff(a * b, a' * b, M, t * b);
  }

  /** Reducing either factor of a product modulo M first does not change the product modulo M. */
  lemma ModMulReduce(a: int, b: int, M: int)
    requires M > 0
    ensures ((a % M) * (b % M)) % M == (a * b) % M
  {
    ModOfMultipleDiff(a % M, a, M, -(a / M));
    ModMulCong(a % M, a, b % M, M);
    ModOfMultipleDiff(b % M, b, M, -(b / M));
    ModMulCong(b % M, b, a, M);
  }

  /** Sums of pointwise congruent terms are congruent. */
  lemma {:induction false} SumModCong(n: nat, f: nat -> int, g: nat -> int, M: int)
    requires M > 0
    requires forall j: nat :: j < n ==> f(j) % M == g(j) % M
    ensures Sum(n, f) % M == Sum(n, g) % M
  {
    if n > 0 {
      SumModCong(n - 1, f, g, M);
      ModAddCong(Sum(n - 1, f), Sum(n - 1, g), f(n - 1), g(n - 1), M);
    }
  }

  lemma {:induction false} PowAdd(w: int, a: nat, b: nat)
    ensures Pow(w, a + b) == Pow(w, a) * Pow(w, b)
  {
    if b > 0 {
      PowAdd(w, a, b - 1);
      assert Pow(w, a + b) == w * (Pow(w, a) * Pow(w, b - 1));
    }
  }

  lemma {:induction false} PowMul(w: int, a: nat, b: nat)
    ensures Pow(Pow(w, a), b) == Pow(w, a * b)
  {
    if b > 0 {
      PowMul(w, a, b - 1);
      assert a * b == a + a * (b - 1);
      PowAdd(w, a, a * (b - 1));
    }
  }

  /** Every power of an element congruent to 1 is congruent to 1. */
  lemma {:induction false} PowOfOne(u: int, e: nat, M: int)
    requires M > 0 && u % M == 1 % M
    ensures Pow(u, e) % M == 1 % M
  {
    if e > 0 {
      PowOfOne(u, e - 1, M);
      ModMulCong(u, 1, Pow(u, e - 1), M);
    }
  }
}
