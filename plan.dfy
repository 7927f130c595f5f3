/**
  A mixed-radix plan: creation (factor search, scratch and working
  buffers, child plans, twiddle table) and the two-pass execution.

  The plan borrows the caller's input and output arrays and owns a working
  copy `buf` of the input, two scratch arrays `t0`, `t1` of length
  max(P, Q) and the N-entry twiddle table.  Both children read `t0` and
  write `t1`; they are supplied by an external plan factory and modelled
  as length-preserving functions on sequences.
 */
module MixedRadixPlan {
  import opened IndexMaps
  import opened Factorization
  import opened Pipeline

  datatype Direction = Forward | Reverse

  datatype PlanError = NotDecomposable(nfft: nat)

  datatype Result<T, E> = Ok(value: T) | Err(error: E)

  /** Sign of the twiddle angle: -1 for the forward transform, +1 for the reverse one. */
  function Sign(dir: Direction): int
  {
    if dir == Forward then -1 else 1
  }

  /** Length of the scratch arrays: the larger of P and Q, enough for both passes. */
  function ScratchLength(P: nat, Q: nat): (len: nat)
    ensures P <= len && Q <= len && (len == P || len == Q)
  {
    if Q > P then Q else P
  }

  /**
    With Q the smallest divisor of N, Q never exceeds P, so the scratch
    length max(P, Q) is always P.
   */
  lemma ScratchLengthIsP(n: nat, q: nat)
    requires IsSmallestDivisor(n, q)
    ensures ScratchLength(n / q, q) == n / q
  {
    FactorPair(n, q);
  }

  /**
    The twiddle table of a size-n plan: entry i is expi(d, i, n), the unit
    complex number at angle d*2*pi*i/n with d the sign of the direction.
   */
  function TwiddleTable<T>(expi: (int, nat, nat) -> T, dir: Direction, n: nat): seq<T>
  {
    seq(n, (i: int) requires 0 <= i < n => expi(Sign(dir), i, n))
  }

  class Plan<T(0, !new)> {
    const nfft: nat
    const P: nat
    const Q: nat
    const direction: Direction
    /** The caller's input and output arrays, borrowed; they may be the same array. */
    const input: array<T>
    const output: array<T>
    /** The working copy of the input. */
    const buf: array<T>
    const t0: array<T>
    const t1: array<T>
    const twiddle: array<T>
    /** The P-point and Q-point child transforms, both reading t0 and writing t1. */
    const childP: seq<T> -> seq<T>
    const childQ: seq<T> -> seq<T>
    const mul: (T, T) -> T

    ghost predicate Valid()
    {
      IsSmallestDivisor(nfft, Q) && P == nfft / Q && P * Q == nfft && 2 <= Q <= P &&
      input.Length == nfft && output.Length == nfft && buf.Length == nfft &&
      twiddle.Length == nfft &&
      t0.Length == ScratchLength(P, Q) && t1.Length == ScratchLength(P, Q) &&
      // the plan's own arrays are distinct from each other and from the caller's
      buf != t0 && buf != t1 && t0 != t1 &&
      twiddle != buf && twiddle != t0 && twiddle != t1 &&
      input != buf && input != t0 && input != t1 && input != twiddle &&
      output != buf && output != t0 && output != t1 && output != twiddle &&
      PreservesLength(childP, P) && PreservesLength(childQ, Q)
    }

    /**
      Builds the plan for size nfft once its smallest divisor Q is known:
      P = nfft / Q, scratch arrays of length max(P, Q), a working buffer of
      length nfft, the two children from the factory, and the twiddle table
      filled entry by entry.
     */
    constructor (nfft: nat, Q: nat, input: array<T>, output: array<T>, direction: Direction,
                 factory: (nat, Direction) -> (seq<T> -> seq<T>),
                 expi: (int, nat, nat) -> T, mul: (T, T) -> T)
      requires IsSmallestDivisor(nfft, Q)
      requires input.Length == nfft && output.Length == nfft
      requires forall m: nat, d: Direction :: PreservesLength(factory(m, d), m)
      ensures Valid()
      ensures fresh(buf) && fresh(t0) && fresh(t1) && fresh(twiddle)
      ensures this.nfft == nfft && this.Q == Q && P == nfft / Q && this.direction == direction
      ensures this.input == input && this.output == output && this.mul == mul
      ensures childP == factory(P, direction) && childQ == factory(Q, direction)
      ensures twiddle[..] == TwiddleTable(expi, direction, nfft)
    {
      FactorPair(nfft, Q);
      var p := nfft / Q;
      this.nfft := nfft;
      this.input := input;
      this.output := output;
      this.direction := direction;
      this.mul := mul;
      this.Q := Q;
      this.P := p;
      var tLen := if Q > p then Q else p;
      t0 := new T[tLen];
      t1 := new T[tLen];
      buf := new T[nfft];
      childP := factory(p, direction);
      childQ := factory(Q, direction);
      var tw := new T[nfft];
      var i := 0;
      while i < nfft
        invariant 0 <= i <= nfft
        invariant forall j :: 0 <= j < i ==> tw[j] == expi(Sign(direction), j, nfft)
      {
        tw[i] := expi(Sign(direction), i, nfft);
        i := i + 1;
      }
      twiddle := tw;
    }

    /** Copies the caller's input into the working buffer (the memmove). */
    method CopyInput()
      requires Valid()
      modifies buf
      ensures buf[..] == input[..]
    {
      forall j | 0 <= j < nfft {
        buf[j] := input[j];
      }
    }

    /** Runs a child plan of size m: it reads t0[..m] and writes t1[..m]. */
    method RunChild(child: seq<T> -> seq<T>, m: nat)
      requires Valid() && m <= t0.Length && PreservesLength(child, m)
      modifies t1
      ensures t1[..m] == child(t0[..m])
      ensures forall j :: m <= j < t1.Length ==> t1[j] == old(t1[j])
    {
      var r := child(t0[..m]);
      forall j | 0 <= j < m {
        t1[j] := r[j];
      }
      assert t1[..m] == r;
      assert t0[..m] == old(t0[..m]);
    }

    /** Phase-one gather of column i: t0[k] = x[Q*k + i] for k < P. */
    method GatherColumn(i: nat)
      requires Valid() && i < Q
      modifies t0
      ensures t0[..P] == Column(buf[..], P, Q, i)
    {
      for k := 0 to P
        invariant forall k' :: 0 <= k' < k ==> Flatten(Q, k', i) < nfft && t0[k'] == buf[Flatten(Q, k', i)]
      {
        FlattenRoundTrip(P, Q, k, i);
        t0[k] := buf[Q * k + i];
      }
    }

    /**
      Phase-one scatter of column i: x[Q*k + i] = t1[k] * twiddle[i*k] for
      k < P; every other cell keeps its value.
     */
    method ScatterColumn(i: nat)
      requires Valid() && i < Q
      modifies buf
      ensures forall k :: 0 <= k < P ==>
        Flatten(Q, k, i) < nfft && i * k < nfft &&
        buf[Flatten(Q, k, i)] == mul(t1[k], twiddle[i * k])
      ensures forall j :: 0 <= j < nfft && (j % Q != i) ==> buf[j] == old(buf[j])
    {
      ghost var pos := i;
      for k := 0 to P
        invariant pos == Flatten(Q, k, i)
        invariant forall k' :: 0 <= k' < k ==>
          Flatten(Q, k', i) < pos && Flatten(Q, k', i) < nfft && i * k' < nfft &&
          buf[Flatten(Q, k', i)] == mul(t1[k'], twiddle[i * k'])
        invariant forall j :: 0 <= j < nfft && (j % Q != i || j >= pos) ==> buf[j] == old(buf[j])
      {
        GridStep(P, Q, k, i);
        TwiddleIndexInRange(P, Q, i, k);
        buf[Q * k + i] := mul(t1[k], twiddle[i * k]);
        pos := pos + Q;
      }
    }

    /**
      Phase one for column i: gather x[Q*k + i] into t0, run the P-point
      child, and write t1[k] * twiddle[i*k] back to x[Q*k + i].  Only the
      cells of column i change.
     */
    method TransformColumn(i: nat)
      requires Valid() && i < Q
      modifies buf, t0, t1
      ensures forall j :: 0 <= j < nfft ==>
        buf[j] == if j % Q == i then Phase1Cell(old(buf[..]), P, Q, childP, twiddle[..], mul, j)
                  else old(buf[j])
    {
      ghost var x := buf[..];
      GatherColumn(i);
      RunChild(childP, P);
      ScatterColumn(i);
      forall j | 0 <= j < nfft && j % Q == i
        ensures buf[j] == Phase1Cell(x, P, Q, childP, twiddle[..], mul, j)
      {
        UnflattenRoundTrip(P, Q, j);
      }
    }

    /** Phase-two gather of row i: t0[k] = x[Q*i + k] for k < Q. */
    method GatherRow(i: nat)
      requires Valid() && i < P
      modifies t0
      ensures t0[..Q] == Row(buf[..], P, Q, i)
      ensures forall j :: Q <= j < t0.Length ==> t0[j] == old(t0[j])
    {
      for k := 0 to Q
        invariant forall k' :: 0 <= k' < k ==> Flatten(Q, i, k') < nfft && t0[k'] == buf[Flatten(Q, i, k')]
        invariant forall j :: Q <= j < t0.Length ==> t0[j] == old(t0[j])
      {
        FlattenRoundTrip(P, Q, i, k);
        t0[k] := buf[Q * i + k];
      }
    }

    /**
      Phase-two transposed write of row i: y[k*P + i] = t1[k] for k < Q;
      every other output cell keeps its value.
     */
    method ScatterTransposed(i: nat)
      requires Valid() && i < P
      modifies output
      ensures forall k :: 0 <= k < Q ==> Flatten(P, k, i) < nfft && output[Flatten(P, k, i)] == t1[k]
      ensures forall j :: 0 <= j < nfft && j % P != i ==> output[j] == old(output[j])
    {
      ghost var pos := i;
      for k := 0 to Q
        invariant pos == Flatten(P, k, i)
        invariant forall k' :: 0 <= k' < k ==>
          Flatten(P, k', i) < pos && Flatten(P, k', i) < nfft && output[Flatten(P, k', i)] == t1[k']
        invariant forall j :: 0 <= j < nfft && (j % P != i || j >= pos) ==> output[j] == old(output[j])
      {
        GridStep(Q, P, k, i);
        MulComm(k, P);
        MulComm(Q, P);
        output[k * P + i] := t1[k];
        pos := pos + P;
      }
    }

    /**
      Phase two for row i: gather x[Q*i + k] into t0, run the Q-point child,
      and write t1[k] to output position k*P + i.  Only the output cells of
      that transposed column change, and the working buffer does not.
     */
    method TransformRow(i: nat)
      requires Valid() && i < P
      modifies t0, t1, output
      ensures forall j :: 0 <= j < nfft ==>
        output[j] == if j % P == i then Phase2Cell(buf[..], P, Q, childQ, j)
                     else old(output[j])
    {
      GatherRow(i);
      RunChild(childQ, Q);
      ScatterTransposed(i);
      forall j | 0 <= j < nfft && j % P == i
        ensures output[j] == Phase2Cell(buf[..], P, Q, childQ, j)
      {
        assert Q * P == nfft;
        UnflattenRoundTrip(Q, P, j);
      }
    }

    /**
      Executes the plan: copy the input into the working buffer, run phase
      one over the Q columns and phase two over the P rows.  The output is
      the mixed-radix transform of the input as it was on entry, whatever
      the buffers held before.
     */
    method Execute()
      requires Valid()
      modifies buf, t0, t1, output
      ensures output[..] == MixedRadix(old(input[..]), P, Q, childP, childQ, twiddle[..], mul)
    {
      ghost var x := input[..];
      CopyInput();
      var i := 0;
      while i < Q
        invariant 0 <= i <= Q
        invariant forall j :: 0 <= j < nfft ==>
          buf[j] == if j % Q < i then Phase1Cell(x, P, Q, childP, twiddle[..], mul, j) else x[j]
      {
        ghost var before := buf[..];
        TransformColumn(i);
        forall j | 0 <= j < nfft && j % Q == i
          ensures buf[j] == Phase1Cell(x, P, Q, childP, twiddle[..], mul, j)
        {
          Phase1CellLocal(before, x, P, Q, childP, twiddle[..], mul, j);
        }
        i := i + 1;
      }
      ghost var b := buf[..];
      assert b == Phase1(x, P, Q, childP, twiddle[..], mul);
      i := 0;
      while i < P
        invariant 0 <= i <= P
        invariant buf[..] == b
        invariant forall j :: 0 <= j < nfft && j % P < i ==> output[j] == Phase2Cell(b, P, Q, childQ, j)
      {
        TransformRow(i);
        i := i + 1;
      }
      assert output[..] == Phase2(b, P, Q, childQ);
    }
  }

  /**
    Plan creation: search for the smallest divisor Q of nfft in [2, nfft);
    when there is none (nfft prime, or nfft <= 1) creation fails, otherwise
    the plan for P = nfft / Q and Q is built.
   */
  method CreatePlan<T(0, !new)>(nfft: nat, input: array<T>, output: array<T>, direction: Direction,
                                factory: (nat, Direction) -> (seq<T> -> seq<T>),
                                expi: (int, nat, nat) -> T, mul: (T, T) -> T)
    returns (r: Result<Plan<T>, PlanError>)
    requires input.Length == nfft && output.Length == nfft
    requires forall m: nat, d: Direction :: PreservesLength(factory(m, d), m)
    ensures r.Err? <==> nfft <= 1 || IsPrime(nfft)
    ensures r.Err? ==> r.error == NotDecomposable(nfft)
    ensures r.Ok? ==>
      r.value.Valid() && r.value.nfft == nfft &&
      IsSmallestDivisor(nfft, r.value.Q) && r.value.P * r.value.Q == nfft &&
      r.value.input == input && r.value.output == output &&
      r.value.direction == direction && r.value.mul == mul &&
      r.value.childP == factory(r.value.P, direction) && r.value.childQ == factory(r.value.Q, direction) &&
      fresh(r.value.buf) && fresh(r.value.t0) && fresh(r.value.t1) && fresh(r.value.twiddle) &&
      r.value.twiddle[..] == TwiddleTable(expi, direction, nfft)
  {
    var q := FindFactor(nfft);
    if q == 0 {
      return Err(NotDecomposable(nfft));
    }
    var plan := new Plan(nfft, q, input, output, direction, factory, expi, mul);
    return Ok(plan);
  }
}
