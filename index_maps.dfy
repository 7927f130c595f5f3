/**
  Index arithmetic of the mixed-radix transform.

  The N = P*Q input samples are viewed as a grid of P rows and Q columns
  stored row by row, so that cell (k, i) sits at Q*k + i; the output is
  written transposed, as a grid of Q rows and P columns, so that cell
  (k, i) of the second pass sits at k*P + i.  Both are instances of
  Flatten, whose inverse is Unflatten.
 */
module IndexMaps {

  /** Position of cell (row, col) of a grid with `width` columns stored row by row. */
  function Flatten(width: nat, row: nat, col: nat): nat
  {
    width * row + col
  }

  /** Row and column of position j of a grid with `width` columns stored row by row. */
  function Unflatten(width: nat, j: nat): (nat, nat)
    requires width > 0
  {
    (j / width, j % width)
  }

  /** A multiple of a positive d that lies strictly between -d and d is zero. */
  lemma ZeroMultiple(d: int, c: int)
    requires d > 0 && -d < d * c < d
    ensures c == 0
  {
  }

  /** Quotient and remainder are the unique q, r with a == d*q + r and 0 <= r < d. */
  lemma DivModUnique(a: int, d: int, q: int, r: int)
    requires d > 0 && 0 <= r < d && a == d * q + r
    ensures a / d == q && a % d == r
  {
    assert a == d * (a / d) + a % d;
    assert d * (q - a / d) == a % d - r;
    ZeroMultiple(d, q - a / d);
  }

  /** Flatten sends the cells of a rows-by-width grid into [0, rows*width) and Unflatten undoes it. */
  lemma FlattenRoundTrip(rows: nat, width: nat, row: nat, col: nat)
    requires row < rows && col < width
    ensures Flatten(width, row, col) < rows * width
    ensures Unflatten(width, Flatten(width, row, col)) == (row, col)
  {
    MulNonNegative(width, rows - (row + 1));
    MulDistributes(width, rows - (row + 1), row + 1);
    MulDistributes(width, row, 1);
    DivModUnique(Flatten(width, row, col), width, row, col);
  }

  /**
    Walking down a column: cell (row, col) lies inside the grid, in column
    col, and the cell below it is `width` positions further on.
   */
  lemma GridStep(rows: nat, width: nat, row: nat, col: nat)
    requires row < rows && col < width
    ensures Flatten(width, row, col) < rows * width
    ensures Flatten(width, row, col) % width == col
    ensures Flatten(width, row + 1, col) == Flatten(width, row, col) + width
  {
    FlattenRoundTrip(rows, width, row, col);
    MulDistributes(width, row, 1);
  }

  /** Every position of [0, rows*width) is the Flatten of the cell Unflatten gives for it. */
  lemma UnflattenRoundTrip(rows: nat, width: nat, j: nat)
    requires width > 0 && j < rows * width
    ensures Unflatten(width, j).0 < rows && Unflatten(width, j).1 < width
    ensures Flatten(width, Unflatten(width, j).0, Unflatten(width, j).1) == j
  {
    var q, r := j / width, j % width;
    assert j == width * q + r;
  }

  /**
    Phase-one indexing: the row-major map (k, i) |-> Q*k + i, for k < P and
    i < Q, is a bijection onto [0, P*Q), so every cell of the working buffer
    is gathered and rewritten exactly once.
   */
  lemma {:induction false} ColumnIndexBijection(P: nat, Q: nat)
    requires Q > 0
    ensures forall k: nat, i: nat :: k < P && i < Q ==>
      Flatten(Q, k, i) < P * Q && Unflatten(Q, Flatten(Q, k, i)) == (k, i)
    ensures forall j: nat :: j < P * Q ==>
      Unflatten(Q, j).0 < P && Unflatten(Q, j).1 < Q &&
      Flatten(Q, Unflatten(Q, j).0, Unflatten(Q, j).1) == j
  {
    forall k: nat, i: nat | k < P && i < Q
      ensures Flatten(Q, k, i) < P * Q && Unflatten(Q, Flatten(Q, k, i)) == (k, i)
    {
      FlattenRoundTrip(P, Q, k, i);
    }
    forall j: nat | j < P * Q
      ensures Unflatten(Q, j).0 < P && Unflatten(Q, j).1 < Q &&
              Flatten(Q, Unflatten(Q, j).0, Unflatten(Q, j).1) == j
    {
      UnflattenRoundTrip(P, Q, j);
    }
  }

  /**
    Phase-two indexing: the transpose map (k, i) |-> k*P + i, for k < Q and
    i < P, is a bijection onto [0, P*Q), so every output cell is written
    exactly once.
   */
  lemma {:induction false} TransposeIndexBijection(P: nat, Q: nat)
    requires P > 0
    ensures forall k: nat, i: nat :: k < Q && i < P ==>
      Flatten(P, k, i) == k * P + i && Flatten(P, k, i) < P * Q &&
      Unflatten(P, Flatten(P, k, i)) == (k, i)
    ensures forall j: nat :: j < P * Q ==>
      Unflatten(P, j).0 < Q && Unflatten(P, j).1 < P &&
      Flatten(P, Unflatten(P, j).0, Unflatten(P, j).1) == j
  {
    forall k: nat, i: nat | k < Q && i < P
      ensures Flatten(P, k, i) == k * P + i && Flatten(P, k, i) < P * Q &&
              Unflatten(P, Flatten(P, k, i)) == (k, i)
    {
      FlattenRoundTrip(Q, P, k, i);
      assert Q * P == P * Q;
    }
    forall j: nat | j < P * Q
      ensures Unflatten(P, j).0 < Q && Unflatten(P, j).1 < P &&
              Flatten(P, Unflatten(P, j).0, Unflatten(P, j).1) == j
    {
      assert Q * P == P * Q;
      UnflattenRoundTrip(Q, P, j);
    }
  }

  /** The twiddle index i*k of column i, row k stays inside the N-entry table. */
  lemma TwiddleIndexInRange(P: nat, Q: nat, i: nat, k: nat)
    requires i < Q && k < P
    ensures i * k <= (Q - 1) * (P - 1) < P * Q
  {
    MulNonNegative(i, P - 1 - k);
    MulDistributes(i, P - 1 - k, k);
    MulNonNegative(Q - 1 - i, P - 1);
    MulDistributes(P - 1, Q - 1 - i, i);
    MulDistributes(P - 1, Q - 1, 1);
    MulDistributes(Q, P - 1, 1);
    assert (Q - 1) * (P - 1) == P * Q - P - Q + 1;
  }

  lemma MulNonNegative(a: int, b: int)
    requires a >= 0 && b >= 0
    ensures a * b >= 0
  {
  }

  lemma MulComm(a: int, b: int)
    ensures a * b == b * a
  {
  }

  lemma MulAssoc(a: int, b: int, c: int)
    ensures a * (b * c) == (a * b) * c
  {
  }

  /** a*(b + c) == a*b + a*c, in both argument orders. */
  lemma MulDistributes(a: int, b: int, c: int)
    ensures a * (b + c) == a * b + a * c && (b + c) * a == b * a + c * a
  {
  }
}
