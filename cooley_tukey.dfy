/**
  The promise of the file header: executing a mixed-radix plan computes the
  N-point discrete Fourier transform.

  The complex numbers are replaced by the exact ring of integers modulo M
  and the unit root e^(d*2*pi*i/N) by an element w with w^N = 1 there.
  When the twiddle table holds the powers of w, the product is the ring
  product, and the two children compute exact P-point and Q-point DFTs with
  roots w^Q and w^P, the output of the plan is the N-point DFT of its input.
 */
module CooleyTukey {
  import opened IndexMaps
  import opened Sums
  import opened Modular
  import opened Pipeline
  import opened MixedRadixPlan

  /** s[j], or 0 past the end of s. */
  function At(s: seq<int>, j: nat): int
  {
    if j < |s| then s[j] else 0
  }

  /** The terms s[j] * w^(j*k) of entry k of the DFT of s. */
  function DftSummand(s: seq<int>, w: int, k: nat): nat -> int
  {
    (j: nat) => At(s, j) * Pow(w, j * k)
  }

  /** Entry k of the DFT of s with root w, in the integers modulo M. */
  function DftAt(s: seq<int>, w: int, M: int, k: nat): int
    requires M > 0
  {
    Sum(|s|, DftSummand(s, w, k)) % M
  }

  /** The |s|-point DFT of s with root w, in the integers modulo M. */
  function Dft(s: seq<int>, w: int, M: int): seq<int>
    requires M > 0
  {
    seq(|s|, (k: int) requires 0 <= k < |s| => DftAt(s, w, M, k))
  }

  /** The twiddle table holds w^j modulo M. */
  ghost predicate IsPowerTable(twiddle: seq<int>, w: int, M: int)
    requires M > 0
  {
    forall j :: 0 <= j < |twiddle| ==> twiddle[j] == Pow(w, j) % M
  }

  /** The element product is the product modulo M. */
  ghost predicate IsModularProduct(mul: (int, int) -> int, M: int)
    requires M > 0
  {
    forall a, b :: mul(a, b) == (a * b) % M
  }

  /** The child computes the exact m-point DFT with root w. */
  ghost predicate IsDft(child: seq<int> -> seq<int>, m: nat, w: int, M: int)
    requires M > 0
  {
    forall s :: |s| == m ==> child(s) == Dft(s, w, M)
  }

  /** The terms x[Q*m + i] * w^(Q*m*k1) of the P-point DFT of column i at k1. */
  function ColumnTerm(x: seq<int>, Q: nat, w: int, i: nat, k1: nat): nat -> int
  {
    (m: nat) => At(x, Q * m + i) * Pow(w, Q * (m * k1))
  }

  /** The twiddle w^(i*k1) of column i times the phase-two factor w^(P*i*k2). */
  function Twist(w: int, P: nat, i: nat, k1: nat, k2: nat): int
  {
    Pow(w, i * k1) * Pow(w, P * (i * k2))
  }

  function TwistedColumnTerm(x: seq<int>, P: nat, Q: nat, w: int, i: nat, k1: nat, k2: nat): nat -> int
  {
    (m: nat) => ColumnTerm(x, Q, w, i, k1)(m) * Twist(w, P, i, k1, k2)
  }

  /** The P-point DFT of column i with root w^Q, at k1, is the column sum of ColumnTerm. */
  lemma ColumnDft(x: seq<int>, P: nat, Q: nat, w: int, M: int, i: nat, k1: nat)
    requires M > 0 && |x| == P * Q && i < Q
    ensures DftAt(Column(x, P, Q, i), Pow(w, Q), M, k1) == Sum(P, ColumnTerm(x, Q, w, i, k1)) % M
  {
    var c := Column(x, P, Q, i);
    forall m: nat | m < P
      ensures DftSummand(c, Pow(w, Q), k1)(m) == ColumnTerm(x, Q, w, i, k1)(m)
    {
      FlattenRoundTrip(P, Q, m, i);
      PowMul(w, Q, m * k1);
    }
    SumExt(P, DftSummand(c, Pow(w, Q), k1), ColumnTerm(x, Q, w, i, k1));
  }

  /**
    After phase one, cell Q*k1 + i holds, modulo M, the P-point DFT of
    column i at k1 times its twiddle w^(i*k1).
   */
  lemma Phase1Entry(x: seq<int>, P: nat, Q: nat, w: int, M: int, childP: seq<int> -> seq<int>,
                    twiddle: seq<int>, mul: (int, int) -> int, i: nat, k1: nat)
    requires M > 0 && |x| == P * Q && |twiddle| == P * Q && i < Q && k1 < P
    requires IsPowerTable(twiddle, w, M) && IsModularProduct(mul, M)
    requires IsDft(childP, P, Pow(w, Q), M) && PreservesLength(childP, P)
    ensures 0 <= Q * k1 && 0 <= i * k1 && Q * k1 + i < P * Q
    ensures Phase1(x, P, Q, childP, twiddle, mul)[Q * k1 + i] % M ==
            (Sum(P, ColumnTerm(x, Q, w, i, k1)) * Pow(w, i * k1)) % M
  {
    MulNonNegative(Q, k1); MulNonNegative(i, k1);
    Phase1At(x, P, Q, childP, twiddle, mul, k1, i);
    ChildColumnEntry(x, P, Q, w, M, childP, i, k1);
    var a, t := childP(Column(x, P, Q, i))[k1], twiddle[i * k1];
    ReducedProduct(Sum(P, ColumnTerm(x, Q, w, i, k1)), Pow(w, i * k1), a, t, mul(a, t), M);
  }

  /** Entry k1 of the exact child DFT of column i is the column sum of ColumnTerm, modulo M. */
  lemma ChildColumnEntry(x: seq<int>, P: nat, Q: nat, w: int, M: int, childP: seq<int> -> seq<int>,
                         i: nat, k1: nat)
    requires M > 0 && |x| == P * Q && i < Q && k1 < P
    requires IsDft(childP, P, Pow(w, Q), M)
    ensures |childP(Column(x, P, Q, i))| == P
    ensures childP(Column(x, P, Q, i))[k1] == Sum(P, ColumnTerm(x, Q, w, i, k1)) % M
  {
    ColumnDft(x, P, Q, w, M, i, k1);
  }

  /** A product of reduced factors, reduced again, is the reduced product. */
  lemma ReducedProduct(S: int, W: int, a: int, t: int, v: int, M: int)
    requires M > 0 && a == S % M && t == W % M && v == (a * t) % M
    ensures v % M == (S * W) % M
  {
    ModMulReduce(S, W, M);
    DivModUnique(v, M, 0, v);
  }

  /**
    The phase-two summand of row k1 at (i, k2) is, modulo M, the twisted
    column sum of column i.
   */
  lemma RowSummand(x: seq<int>, P: nat, Q: nat, w: int, M: int, childP: seq<int> -> seq<int>,
                   twiddle: seq<int>, mul: (int, int) -> int, k1: nat, k2: nat, i: nat)
    requires M > 0 && |x| == P * Q && |twiddle| == P * Q && i < Q && k1 < P
    requires IsPowerTable(twiddle, w, M) && IsModularProduct(mul, M)
    requires IsDft(childP, P, Pow(w, Q), M) && PreservesLength(childP, P)
    ensures DftSummand(Row(Phase1(x, P, Q, childP, twiddle, mul), P, Q, k1), Pow(w, P), k2)(i) % M ==
            (Sum(P, ColumnTerm(x, Q, w, i, k1)) * Twist(w, P, i, k1, k2)) % M
  {
    MulNonNegative(i, k2); MulNonNegative(P, i * k2);
    var b := Phase1(x, P, Q, childP, twiddle, mul);
    Phase1Entry(x, P, Q, w, M, childP, twiddle, mul, i, k1);
    var S, W, V := Sum(P, ColumnTerm(x, Q, w, i, k1)), Pow(w, i * k1), Pow(w, P * (i * k2));
    var v := b[Q * k1 + i];
    assert DftSummand(Row(b, P, Q, k1), Pow(w, P), k2)(i) == v * V by {
      FlattenRoundTrip(P, Q, k1, i);
      PowMul(w, P, i * k2);
    }
    ModMulCong(v, S * W, V, M);
    MulAssoc(S, W, V);
  }

  /**
    Summand Q*m + i of DFT entry P*k2 + k1 of x agrees modulo M with the
    twisted column term: the exponent (Q*m + i)*(P*k2 + k1) differs from
    Q*m*k1 + i*k1 + P*i*k2 by a multiple of N, and w^N = 1.
   */
  lemma SummandCong(x: seq<int>, P: nat, Q: nat, w: int, M: int, k1: nat, k2: nat, m: nat, i: nat)
    requires M > 0 && Pow(w, P * Q) % M == 1 % M
    ensures DftSummand(x, w, P * k2 + k1)(Q * m + i) % M ==
            TwistedColumnTerm(x, P, Q, w, i, k1, k2)(m) % M
  {
    MulNonNegative(m, k1); MulNonNegative(Q, m * k1); MulNonNegative(i, k1);
    MulNonNegative(i, k2); MulNonNegative(P, i * k2); MulNonNegative(P, Q); MulNonNegative(m, k2);
    var A, B, C := Q * (m * k1), i * k1, P * (i * k2);
    var E := A + (B + C);
    var a, pj, pE := At(x, Q * m + i), Pow(w, (Q * m + i) * (P * k2 + k1)), Pow(w, E);
    var pA, tw := Pow(w, A), Twist(w, P, i, k1, k2);
    assert pj % M == pE % M by {
      ExponentSplit(P, Q, k1, k2, m, i);
      PowerOfOrderMultiple(w, P * Q, m * k2, E, M);
    }
    assert pE == pA * tw by {
      PowAdd(w, A, B + C);
      PowAdd(w, B, C);
    }
    CongruentFactor(a, pj, pE, pA, tw, M);
    assert DftSummand(x, w, P * k2 + k1)(Q * m + i) == a * pj;
    assert ColumnTerm(x, Q, w, i, k1)(m) == a * pA;
    assert TwistedColumnTerm(x, P, Q, w, i, k1, k2)(m) == ColumnTerm(x, Q, w, i, k1)(m) * tw;
  }

  /** a*p and (a*q)*t agree modulo M when p agrees with q*t modulo M. */
  lemma CongruentFactor(a: int, p: int, pE: int, q: int, t: int, M: int)
    requires M > 0 && p % M == pE % M && pE == q * t
    ensures (a * p) % M == ((a * q) * t) % M
  {
    ModMulCong(p, pE, a, M);
    MulAssoc(a, q, t);
  }

  /** (Q*m + i)*(P*k2 + k1) = N*(m*k2) + Q*(m*k1) + (i*k1 + P*(i*k2)) with N = P*Q. */
  lemma ExponentSplit(P: nat, Q: nat, k1: nat, k2: nat, m: nat, i: nat)
    ensures (Q * m + i) * (P * k2 + k1) == (P * Q) * (m * k2) + (Q * (m * k1) + (i * k1 + P * (i * k2)))
  {
    var u, v := Q * m, P * k2;
    assert (u + i) * (v + k1) == u * v + u * k1 + i * v + i * k1;
    assert u * v == (P * Q) * (m * k2);
    assert u * k1 == Q * (m * k1);
    assert i * v == P * (i * k2);
  }

  /** Multiplying by w^(N*e) does not change a value modulo M when w^N = 1 modulo M. */
  lemma PowerOfOrderMultiple(w: int, N: nat, e: nat, E: nat, M: int)
    requires M > 0 && Pow(w, N) % M == 1 % M
    ensures Pow(w, N * e + E) % M == Pow(w, E) % M
  {
    PowAdd(w, N * e, E);
    PowMul(w, N, e);
    PowOfOne(Pow(w, N), e, M);
    ModMulCong(Pow(w, N * e), 1, Pow(w, E), M);
  }

  /**
    Column i of the DFT sum for entry P*k2 + k1 of x agrees modulo M with
    summand i of the phase-two child DFT of row k1.
   */
  lemma ColumnSumCong(x: seq<int>, P: nat, Q: nat, w: int, M: int, childP: seq<int> -> seq<int>,
                      twiddle: seq<int>, mul: (int, int) -> int, k1: nat, k2: nat, i: nat)
    requires M > 0 && |x| == P * Q && |twiddle| == P * Q && i < Q && k1 < P
    requires Pow(w, P * Q) % M == 1 % M
    requires IsPowerTable(twiddle, w, M) && IsModularProduct(mul, M)
    requires IsDft(childP, P, Pow(w, Q), M) && PreservesLength(childP, P)
    ensures 0 <= P * k2
    ensures ColumnSums(DftSummand(x, w, P * k2 + k1), P, Q)(i) % M ==
            DftSummand(Row(Phase1(x, P, Q, childP, twiddle, mul), P, Q, k1), Pow(w, P), k2)(i) % M
  {
    MulNonNegative(P, k2);
    var f := DftSummand(x, w, P * k2 + k1);
    var t := TwistedColumnTerm(x, P, Q, w, i, k1, k2);
    forall m: nat | m < P
      ensures ColumnOf(f, Q, i)(m) % M == t(m) % M
    {
      MulNonNegative(Q, m);
      SummandCong(x, P, Q, w, M, k1, k2, m, i);
    }
    SumModCong(P, ColumnOf(f, Q, i), t, M);
    SumScale(P, ColumnTerm(x, Q, w, i, k1), t, Twist(w, P, i, k1, k2));
    RowSummand(x, P, Q, w, M, childP, twiddle, mul, k1, k2, i);
  }

  /** Entry P*k2 + k1 of the mixed-radix transform is entry P*k2 + k1 of the DFT. */
  lemma MixedRadixEntry(x: seq<int>, P: nat, Q: nat, w: int, M: int,
                        childP: seq<int> -> seq<int>, childQ: seq<int> -> seq<int>,
                        twiddle: seq<int>, mul: (int, int) -> int, k2: nat, k1: nat)
    requires M > 0 && P > 0 && Q > 0 && |x| == P * Q && |twiddle| == P * Q && k2 < Q && k1 < P
    requires Pow(w, P * Q) % M == 1 % M
    requires IsPowerTable(twiddle, w, M) && IsModularProduct(mul, M)
    requires IsDft(childP, P, Pow(w, Q), M) && PreservesLength(childP, P)
    requires IsDft(childQ, Q, Pow(w, P), M) && PreservesLength(childQ, Q)
    ensures 0 <= P * k2 && P * k2 + k1 < P * Q
    ensures MixedRadix(x, P, Q, childP, childQ, twiddle, mul)[P * k2 + k1] == DftAt(x, w, M, P * k2 + k1)
  {
    MulNonNegative(P, k2); MulNonNegative(P, Q);
    var r := Row(Phase1(x, P, Q, childP, twiddle, mul), P, Q, k1);
    assert MixedRadix(x, P, Q, childP, childQ, twiddle, mul)[P * k2 + k1] == DftAt(r, Pow(w, P), M, k2) by {
      Phase2At(Phase1(x, P, Q, childP, twiddle, mul), P, Q, childQ, k2, k1);
      MulComm(k2, P);
      assert childQ(r) == Dft(r, Pow(w, P), M);
    }
    forall i: nat | i < Q
      ensures ColumnSums(DftSummand(x, w, P * k2 + k1), P, Q)(i) % M ==
              DftSummand(Row(Phase1(x, P, Q, childP, twiddle, mul), P, Q, k1), Pow(w, P), k2)(i) % M
    {
      ColumnSumCong(x, P, Q, w, M, childP, twiddle, mul, k1, k2, i);
    }
    SumByColumns(P, Q, DftSummand(x, w, P * k2 + k1));
    SumModCong(Q, ColumnSums(DftSummand(x, w, P * k2 + k1), P, Q),
               DftSummand(Row(Phase1(x, P, Q, childP, twiddle, mul), P, Q, k1), Pow(w, P), k2), M);
  }

  /**
    With w^N = 1 modulo M, a table of powers of w, the modular product and
    exact DFT children, the mixed-radix transform is the N-point DFT.
   */
  lemma MixedRadixIsDft(x: seq<int>, P: nat, Q: nat, w: int, M: int,
                        childP: seq<int> -> seq<int>, childQ: seq<int> -> seq<int>,
                        twiddle: seq<int>, mul: (int, int) -> int)
    requires M > 0 && P > 0 && Q > 0 && |x| == P * Q && |twiddle| == P * Q
    requires Pow(w, P * Q) % M == 1 % M
    requires IsPowerTable(twiddle, w, M) && IsModularProduct(mul, M)
    requires IsDft(childP, P, Pow(w, Q), M) && IsDft(childQ, Q, Pow(w, P), M)
    ensures PreservesLength(childP, P) && PreservesLength(childQ, Q)
    ensures MixedRadix(x, P, Q, childP, childQ, twiddle, mul) == Dft(x, w, M)
  {
    var y := MixedRadix(x, P, Q, childP, childQ, twiddle, mul);
    forall j | 0 <= j < P * Q
      ensures y[j] == Dft(x, w, M)[j]
    {
      assert Q * P == P * Q;
      UnflattenRoundTrip(Q, P, j);
      MixedRadixEntry(x, P, Q, w, M, childP, childQ, twiddle, mul, j / P, j % P);
    }
  }

  /**
    Executing a plan over the integers modulo M whose twiddle table holds
    the powers of w and whose children are exact DFTs leaves in the output
    the N-point DFT of the input as it was on entry.
   */
  method ExecuteComputesDft(plan: Plan<int>, w: int, M: int)
    requires plan.Valid() && M > 0
    requires Pow(w, plan.nfft) % M == 1 % M
    requires IsPowerTable(plan.twiddle[..], w, M) && IsModularProduct(plan.mul, M)
    requires IsDft(plan.childP, plan.P, Pow(w, plan.Q), M)
    requires IsDft(plan.childQ, plan.Q, Pow(w, plan.P), M)
    modifies plan.buf, plan.t0, plan.t1, plan.output
    ensures plan.output[..] == Dft(old(plan.input[..]), w, M)
  {
    plan.Execute();
    MixedRadixIsDft(old(plan.input[..]), plan.P, plan.Q, w, M, plan.childP, plan.childQ,
                    plan.twiddle[..], plan.mul);
  }
}
