/**
  The factor search of plan creation: the transform size N is split as
  N = P*Q where Q is the smallest divisor of N in [2, N) and P = N / Q.
 */
module Factorization {
  import opened IndexMaps

  /** q is the smallest divisor of n in [2, n). */
  predicate IsSmallestDivisor(n: nat, q: nat)
  {
    2 <= q < n && n % q == 0 && forall d :: 2 <= d < q ==> n % d != 0
  }

  /** n has no divisor in [2, n). */
  predicate HasNoProperDivisor(n: nat)
  {
    forall d :: 2 <= d < n ==> n % d != 0
  }

  predicate IsPrime(n: nat)
  {
    n >= 2 && HasNoProperDivisor(n)
  }

  /**
    The search loop of plan creation: try i = 2, 3, ... below n and stop at
    the first divisor; 0 means that none was found.
   */
  method FindFactor(n: nat) returns (q: nat)
    ensures q == 0 <==> n <= 1 || IsPrime(n)
    ensures q != 0 ==> IsSmallestDivisor(n, q)
  {
    q := 0;
    var i := 2;
    while i < n
      invariant 2 <= i
      invariant forall d :: 2 <= d < i && d < n ==> n % d != 0
    {
      if n % i == 0 {
        q := i;
        break;
      }
      i := i + 1;
    }
  }

  /** If d divides q and q divides n then d divides n. */
  lemma DividesTransitive(d: nat, q: nat, n: nat)
    requires d > 0 && q > 0 && q % d == 0 && n % q == 0
    ensures n % d == 0
  {
    var a, b := n / q, q / d;
    assert n == q * a;
    assert q == d * b;
    assert n == d * (b * a);
    DivModUnique(n, d, b * a, 0);
  }

  /** The factor the search returns is prime, as the "first 'prime' factor" comment says. */
  lemma SmallestDivisorIsPrime(n: nat, q: nat)
    requires IsSmallestDivisor(n, q)
    ensures IsPrime(q)
  {
    forall d | 2 <= d < q
      ensures q % d != 0
    {
      if q % d == 0 {
        DividesTransitive(d, q, n);
        assert false;
      }
    }
  }

  /**
    The pair the plan stores: P = n / Q is itself a factor, P*Q == n,
    both are at least 2, and the smallest divisor Q never exceeds P.
   */
  lemma FactorPair(n: nat, q: nat)
    requires IsSmallestDivisor(n, q)
    ensures var p := n / q; p * q == n && 2 <= q <= p && p < n
  {
    var p := n / q;
    assert n == q * p;
    assert 2 <= p;
    assert q * p - p == (q - 1) * p;
    assert p < n;
    if p < q {
      DivModUnique(n, p, q, 0);
      assert false;
    }
  }
}
