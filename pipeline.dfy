/**
  Pure specification of one mixed-radix execution, N = P*Q.

  Phase one takes each of the Q columns of the row-major P-by-Q grid,
  runs the P-point child transform on it and multiplies entry k of the
  result of column i by twiddle[i*k].  Phase two takes each of the P rows
  of that grid, runs the Q-point child transform on it and writes entry k
  of the result of row i to output position k*P + i.

  The element type is generic: `mul` stands for the complex product and
  the children for whatever transforms the plan factory supplies.
 */
module Pipeline {
  import opened IndexMaps

  /** A child transform maps every length-m sequence to a length-m sequence. */
  ghost predicate PreservesLength<T(!new)>(child: seq<T> -> seq<T>, m: nat)
  {
    forall s: seq<T> :: |s| == m ==> |child(s)| == m
  }

  /** Column i of the grid: x[Q*k + i] for k < P (the phase-one gather). */
  function Column<T(!new)>(x: seq<T>, P: nat, Q: nat, i: nat): seq<T>
    requires |x| == P * Q && i < Q
  {
    seq(P, (k: int) requires 0 <= k < P =>
      FlattenRoundTrip(P, Q, k, i);
      x[Flatten(Q, k, i)])
  }

  /** Row r of the grid: x[Q*r + k] for k < Q (the phase-two gather). */
  function Row<T(!new)>(x: seq<T>, P: nat, Q: nat, r: nat): seq<T>
    requires |x| == P * Q && r < P
  {
    seq(Q, (k: int) requires 0 <= k < Q =>
      FlattenRoundTrip(P, Q, r, k);
      x[Flatten(Q, r, k)])
  }

  /** What phase one leaves at position j = Q*k + i of the working buffer. */
  function Phase1Cell<T(!new)>(x: seq<T>, P: nat, Q: nat, childP: seq<T> -> seq<T>,
                               twiddle: seq<T>, mul: (T, T) -> T, j: nat): T
    requires |x| == P * Q && |twiddle| == P * Q && Q > 0 && j < P * Q
    requires PreservesLength(childP, P)
  {
    UnflattenRoundTrip(P, Q, j);
    var (k, i) := Unflatten(Q, j);
    TwiddleIndexInRange(P, Q, i, k);
    mul(childP(Column(x, P, Q, i))[k], twiddle[i * k])
  }

  /** The working buffer after phase one. */
  function Phase1<T(!new)>(x: seq<T>, P: nat, Q: nat, childP: seq<T> -> seq<T>,
                           twiddle: seq<T>, mul: (T, T) -> T): seq<T>
    requires |x| == P * Q && |twiddle| == P * Q && Q > 0
    requires PreservesLength(childP, P)
  {
    seq(P * Q, (j: int) requires 0 <= j < P * Q =>
      Phase1Cell(x, P, Q, childP, twiddle, mul, j))
  }

  /** What phase two writes at output position j = k*P + i. */
  function Phase2Cell<T(!new)>(b: seq<T>, P: nat, Q: nat, childQ: seq<T> -> seq<T>, j: nat): T
    requires |b| == P * Q && P > 0 && j < P * Q
    requires PreservesLength(childQ, Q)
  {
    assert Q * P == P * Q;
    UnflattenRoundTrip(Q, P, j);
    var (k, i) := Unflatten(P, j);
    childQ(Row(b, P, Q, i))[k]
  }

  /** The output after phase two. */
  function Phase2<T(!new)>(b: seq<T>, P: nat, Q: nat, childQ: seq<T> -> seq<T>): seq<T>
    requires |b| == P * Q && P > 0
    requires PreservesLength(childQ, Q)
  {
    seq(P * Q, (j: int) requires 0 <= j < P * Q => Phase2Cell(b, P, Q, childQ, j))
  }

  /** The whole mixed-radix transform of x: phase one, then phase two. */
  function MixedRadix<T(!new)>(x: seq<T>, P: nat, Q: nat,
                               childP: seq<T> -> seq<T>, childQ: seq<T> -> seq<T>,
                               twiddle: seq<T>, mul: (T, T) -> T): seq<T>
    requires |x| == P * Q && |twiddle| == P * Q && P > 0 && Q > 0
    requires PreservesLength(childP, P) && PreservesLength(childQ, Q)
  {
    Phase2(Phase1(x, P, Q, childP, twiddle, mul), P, Q, childQ)
  }

  /**
    Phase one overwrites cell Q*k + i with entry k of the P-point child
    transform of column i, times twiddle[i*k]; the transform has length N.
   */
  lemma Phase1At<T(!new)>(x: seq<T>, P: nat, Q: nat, childP: seq<T> -> seq<T>,
                          twiddle: seq<T>, mul: (T, T) -> T, k: nat, i: nat)
    requires |x| == P * Q && |twiddle| == P * Q && k < P && i < Q
    requires PreservesLength(childP, P)
    ensures |Phase1(x, P, Q, childP, twiddle, mul)| == P * Q
    ensures Q * k + i < P * Q && i * k < P * Q
    ensures Phase1(x, P, Q, childP, twiddle, mul)[Q * k + i] ==
            mul(childP(Column(x, P, Q, i))[k], twiddle[i * k])
  {
    FlattenRoundTrip(P, Q, k, i);
    TwiddleIndexInRange(P, Q, i, k);
  }

  /**
    Phase two writes, at output position k*P + i, entry k of the Q-point
    child transform of row i; the output has length N.
   */
  lemma Phase2At<T(!new)>(b: seq<T>, P: nat, Q: nat, childQ: seq<T> -> seq<T>, k: nat, i: nat)
    requires |b| == P * Q && k < Q && i < P
    requires PreservesLength(childQ, Q)
    ensures |Phase2(b, P, Q, childQ)| == P * Q
    ensures k * P + i < P * Q
    ensures Phase2(b, P, Q, childQ)[k * P + i] == childQ(Row(b, P, Q, i))[k]
  {
    assert Q * P == P * Q;
    FlattenRoundTrip(Q, P, k, i);
  }

  /**
    Phase-one cell j depends on the input only through column j % Q: two
    inputs that agree on that column give the same cell.
   */
  lemma Phase1CellLocal<T(!new)>(x: seq<T>, x': seq<T>, P: nat, Q: nat, childP: seq<T> -> seq<T>,
                                 twiddle: seq<T>, mul: (T, T) -> T, j: nat)
    requires |x| == P * Q && |x'| == P * Q && |twiddle| == P * Q && Q > 0 && j < P * Q
    requires PreservesLength(childP, P)
    requires forall j' :: 0 <= j' < P * Q && j' % Q == j % Q ==> x[j'] == x'[j']
    ensures Phase1Cell(x, P, Q, childP, twiddle, mul, j) == Phase1Cell(x', P, Q, childP, twiddle, mul, j)
  {
    UnflattenRoundTrip(P, Q, j);
    var i := j % Q;
    forall k | 0 <= k < P
      ensures Column(x, P, Q, i)[k] == Column(x', P, Q, i)[k]
    {
      FlattenRoundTrip(P, Q, k, i);
    }
    assert Column(x, P, Q, i) == Column(x', P, Q, i);
  }
}
