/**
  Finite sums f(0) + ... + f(n-1) over the integers, and the reindexing
  facts the Cooley-Tukey decomposition rests on.
 */
module Sums {

  /** f(0) + ... + f(n-1). */
  function Sum(n: nat, f: nat -> int): int
  {
    if n == 0 then 0 else Sum(n - 1, f) + f(n - 1)
  }

  /** The terms f(Q*m + i), m = 0, 1, ..., of column i of a grid with Q columns. */
  function ColumnOf(f: nat -> int, Q: nat, i: nat): nat -> int
  {
    (m: nat) => f(Q * m + i)
  }

  /** The terms f(Q*m + i), i = 0, 1, ..., of row m of a grid with Q columns. */
  function RowOf(f: nat -> int, Q: nat, m: nat): nat -> int
  {
    (i: nat) => f(Q * m + i)
  }

  /** The sums of the P-entry columns of a grid with Q columns. */
  function ColumnSums(f: nat -> int, P: nat, Q: nat): nat -> int
  {
    (i: nat) => Sum(P, ColumnOf(f, Q, i))
  }

  /** The sums of the Q-entry rows of a grid with Q columns. */
  function RowSums(f: nat -> int, Q: nat): nat -> int
  {
    (m: nat) => Sum(Q, RowOf(f, Q, m))
  }

  lemma {:induction false} SumExt(n: nat, f: nat -> int, g: nat -> int)
    requires forall j: nat :: j < n ==> f(j) == g(j)
    ensures Sum(n, f) == Sum(n, g)
  {
    if n > 0 {
      SumExt(n - 1, f, g);
    }
  }

  lemma {:induction false} SumOfZeros(n: nat, f: nat -> int)
    requires forall j: nat :: j < n ==> f(j) == 0
    ensures Sum(n, f) == 0
  {
    if n > 0 {
      SumOfZeros(n - 1, f);
    }
  }

  lemma {:induction false} SumAdd(n: nat, f: nat -> int, g: nat -> int, h: nat -> int)
    requires forall j: nat :: j < n ==> h(j) == f(j) + g(j)
    ensures Sum(n, h) == Sum(n, f) + Sum(n, g)
  {
    if n > 0 {
      SumAdd(n - 1, f, g, h);
    }
  }

  lemma {:induction false} SumScale(n: nat, f: nat -> int, g: nat -> int, c: int)
    requires forall j: nat :: j < n ==> g(j) == f(j) * c
    ensures Sum(n, g) == Sum(n, f) * c
  {
    if n > 0 {
      SumScale(n - 1, f, g, c);
      assert Sum(n, g) == Sum(n - 1, f) * c + f(n - 1) * c;
    }
  }

  /** Splitting a sum after its first a terms. */
  lemma {:induction false} SumShift(a: nat, b: nat, f: nat -> int, g: nat -> int)
    requires forall j: nat :: j < b ==> g(j) == f(a + j)
    ensures Sum(a + b, f) == Sum(a, f) + Sum(b, g)
  {
    if b > 0 {
      SumShift(a, b - 1, f, g);
    }
  }

  /** A sum over a P-by-Q grid stored row by row is the sum of its row sums. */
  lemma {:induction false} SumByRows(P: nat, Q: nat, f: nat -> int)
    ensures Sum(P * Q, f) == Sum(P, RowSums(f, Q))
  {
    if P > 0 {
      SumByRows(P - 1, Q, f);
      var a := Q * (P - 1);
      assert (P - 1) * Q == a;
      assert P * Q == a + Q;
      SumShift(a, Q, f, RowOf(f, Q, P - 1));
    }
  }

  /** Exchanging the order of a double sum. */
  lemma {:induction false} SumSwap(P: nat, Q: nat, f: nat -> int)
    ensures Sum(P, RowSums(f, Q)) == Sum(Q, ColumnSums(f, P, Q))
  {
    if P > 0 {
      SumSwap(P - 1, Q, f);
      forall i: nat | i < Q
        ensures ColumnSums(f, P, Q)(i) == ColumnSums(f, P - 1, Q)(i) + RowOf(f, Q, P - 1)(i)
      {
        assert Sum(P, ColumnOf(f, Q, i)) == Sum(P - 1, ColumnOf(f, Q, i)) + f(Q * (P - 1) + i);
      }
      SumAdd(Q, ColumnSums(f, P - 1, Q), RowOf(f, Q, P - 1), ColumnSums(f, P, Q));
    } else {
      SumOfZeros(Q, ColumnSums(f, 0, Q));
    }
  }

  /** A sum over a P-by-Q grid stored row by row is the sum of its column sums. */
  lemma SumByColumns(P: nat, Q: nat, f: nat -> int)
    ensures Sum(P * Q, f) == Sum(Q, ColumnSums(f, P, Q))
  {
    SumByRows(P, Q, f);
    SumSwap(P, Q, f);
  }
}
