/**
 Multi-scalar multiplication over a callback, in batches that fit a scratch space.
 */
module MultiMul {
  import opened Arith
  import opened Digits
  import opened Scalars
  import opened CurveGroup
  import opened Wrappers
  import opened Schedule
  import Strauss
  import Pippenger

  /** `secp256k1_ecmult_multi_callback`: the scalar and point at an index, or failure. */
  type Callback<!P> = nat -> Option<(Scalar, P)>

  ghost predicate AllSome<P(!new)>(cb: Callback<P>, offset: nat, n: nat) {
    forall i :: offset <= i < offset + n ==> cb(i).Some?
  }

  /** What the points at offset, offset + 1, ... contribute. */
  ghost function Part<P(!new)>(g: Group<P>, cb: Callback<P>, offset: nat, n: nat): P
    requires AllSome(cb, offset, n)
  {
    if n == 0 then g.zero
    else
      var (k, p) := cb(offset + n - 1).value;
      g.add(Part(g, cb, offset, n - 1), Mul(g, k, p))
  }

  /** The value that multi-multiplication is for. */
  ghost function Expected<P(!new)>(g: Group<P>, cb: Callback<P>, n: nat, ng: Option<Scalar>): P
    requires AllSome(cb, 0, n)
  {
    g.add(Strauss.GeneratorPart(g, ng), Part(g, cb, 0, n))
  }

  lemma {:induction false} PartConcat<P(!new)>(g: Group<P>, cb: Callback<P>, offset: nat, m: nat, n: nat)
    requires Laws(g) && AllSome(cb, offset, m) && AllSome(cb, offset + m, n)
    ensures AllSome(cb, offset, m + n)
    ensures Part(g, cb, offset, m + n) == g.add(Part(g, cb, offset, m), Part(g, cb, offset + m, n))
    decreases n
  {
    if n == 0 {
      Zero(g, Part(g, cb, offset, m));
    } else {
      PartConcat(g, cb, offset, m, n - 1);
      var (k, p) := cb(offset + m + n - 1).value;
      Assoc(g, Part(g, cb, offset, m), Part(g, cb, offset + m, n - 1), Mul(g, k, p));
    }
  }

  /** Reads n inputs through the callback, after those already in the lists. */
  method Fetch<P(==, !new)>(g: Group<P>, cb: Callback<P>, offset: nat, n: nat,
                            scalars0: seq<Scalar>, points0: seq<P>)
      returns (ok: bool, scalars: seq<Scalar>, points: seq<P>)
    requires Laws(g) && |scalars0| == |points0|
    ensures ok <==> AllSome(cb, offset, n)
    ensures ok ==> |scalars| == |points| == |scalars0| + n
    ensures ok ==> Sum(g, scalars, points) == g.add(Sum(g, scalars0, points0), Part(g, cb, offset, n))
  {
    scalars, points := scalars0, points0;
    Zero(g, Sum(g, scalars0, points0));
    for i := 0 to n
      invariant |scalars| == |points| == |scalars0| + i
      invariant AllSome(cb, offset, i)
      invariant Sum(g, scalars, points) == g.add(Sum(g, scalars0, points0), Part(g, cb, offset, i))
    {
      var c := cb(offset + i);
      if c.None? {
        return false, scalars, points;
      }
      var (k, p) := c.value;
      SumAppend(g, scalars, points, k, p);
      Assoc(g, Sum(g, scalars0, points0), Part(g, cb, offset, i), Mul(g, k, p));
      scalars, points := scalars + [k], points + [p];
    }
    ok := true;
  }

  /** A batch's result: failure, or its part of the whole sum. */
  ghost predicate BatchResult<P(!new)>(g: Group<P>, cb: Callback<P>, ng: Option<Scalar>, offset: nat, n: nat,
                                       ok: bool, r: P)
  {
    && (ok <==> AllSome(cb, offset, n))
    && (ok ==> r == g.add(Strauss.GeneratorPart(g, ng), Part(g, cb, offset, n)))
  }

  /** `secp256k1_ecmult_strauss_batch`. */
  method StraussBatch<P(==, !new)>(g: Group<P>, preG: seq<P>, z: Sizes, maxAlloc: nat, ng: Option<Scalar>,
                                   cb: Callback<P>, nPoints: nat, cbOffset: nat) returns (ok: bool, r: P)
    requires Laws(g) && Strauss.GeneratorTable(g, preG)
    ensures StraussScratchSize(z, nPoints) <= maxAlloc || (ng.None? && nPoints == 0)
        ==> BatchResult(g, cb, ng, cbOffset, nPoints, ok, r)
    ensures !(StraussScratchSize(z, nPoints) <= maxAlloc || (ng.None? && nPoints == 0)) ==> !ok
  {
    r := g.zero;
    Zero(g, g.zero);
    if ng.None? && nPoints == 0 {
      return true, r;
    }
    // secp256k1_scratch_allocate_frame
    if StraussScratchSize(z, nPoints) > maxAlloc {
      return false, r;
    }
    var ps := new Strauss.PointState[nPoints](_ => Strauss.PointState([], 0, 0));
    var preA := new P[nPoints * Strauss.TABLE_A](_ => g.zero);
    StraussAllocates(z, nPoints);
    assert nPoints * z.gej + nPoints * z.scalar + preA.Length * z.gej + preA.Length * z.fe + preA.Length * z.ge
        + ps.Length * z.straussPoint <= maxAlloc;
    var scalars, points;
    ok, scalars, points := Fetch(g, cb, cbOffset, nPoints, [], []);
    if !ok {
      return;
    }
    r := Strauss.Multiply(g, preG, ps, preA, points, scalars, ng);
    Zero(g, Part(g, cb, cbOffset, nPoints));
    Comm(g, Strauss.GeneratorPart(g, ng), Part(g, cb, cbOffset, nPoints));
  }

  method GeneratorInput<P(==, !new)>(g: Group<P>, ng: Option<Scalar>) returns (scalars: seq<Scalar>, points: seq<P>)
    requires Laws(g)
    ensures |scalars| == |points| <= 1 && Sum(g, scalars, points) == Strauss.GeneratorPart(g, ng)
  {
    scalars, points := [], [];
    if ng.Some? {
      scalars, points := [ng.value], [g.gen];
      assert [] + scalars == scalars && [] + points == points;
      SumAppend(g, [], [], ng.value, g.gen);
      Zero(g, Mul(g, ng.value, g.gen));
    }
  }

  /** `secp256k1_ecmult_pippenger_batch`: the generator is one more input. */
  method PippengerBatch<P(==, !new)>(g: Group<P>, z: Sizes, maxAlloc: nat, ng: Option<Scalar>,
                                     cb: Callback<P>, nPoints: nat, cbOffset: nat) returns (ok: bool, r: P)
    requires Laws(g)
    ensures Fits(z, nPoints, maxAlloc) || (ng.None? && nPoints == 0)
        ==> BatchResult(g, cb, ng, cbOffset, nPoints, ok, r)
    ensures !(Fits(z, nPoints, maxAlloc) || (ng.None? && nPoints == 0)) ==> !ok
  {
    r := g.zero;
    Zero(g, g.zero);
    if ng.None? && nPoints == 0 {
      return true, r;
    }
    var bucketWindow := BucketWindow(nPoints);
    if PippengerScratchSize(z, nPoints, bucketWindow) > maxAlloc {
      return false, r;
    }
    var entries := nPoints + 1;
    var words := Pippenger.Words(bucketWindow + 1);
    var ps := new Pippenger.PointState[entries](_ => Pippenger.PointState(0, 0));
    var wnafNa := new int[Offset(words, entries)];
    var buckets := new P[Pow2(bucketWindow)](_ => g.zero);
    PippengerAllocates(z, nPoints, bucketWindow);
    OffsetIsProduct(words, entries);
    MulMono(0, entries, 0, z.int32);
    assert entries * z.ge + entries * z.scalar + z.pippengerState + ps.Length * z.pippengerPoint
        + wnafNa.Length * z.int32 + buckets.Length * z.gej <= maxAlloc;
    var scalars, points := GeneratorInput(g, ng);
    ok, scalars, points := Fetch(g, cb, cbOffset, nPoints, scalars, points);
    if !ok {
      return;
    }
    OffsetMono(words, |points|, entries);
    r := Pippenger.Multiply(g, buckets, bucketWindow, ps, wnafNa, scalars, points);
  }

  /** `secp256k1_ecmult_multi_var_simple`: one multiplication for each point. */
  method MultiVarSimple<P(==, !new)>(g: Group<P>, preG: seq<P>, ng: Option<Scalar>, cb: Callback<P>, n: nat)
      returns (ok: bool, r: P)
    requires Laws(g) && Strauss.GeneratorTable(g, preG)
    ensures ok <==> AllSome(cb, 0, n)
    ensures ok ==> r == Expected(g, cb, n, ng)
  {
    r := Strauss.Ecmult(g, preG, g.zero, 0, ng);
    ghost var gen := Strauss.GeneratorPart(g, ng);
    Zero(g, gen);
    for pointIdx := 0 to n
      invariant AllSome(cb, 0, pointIdx) && r == g.add(gen, Part(g, cb, 0, pointIdx))
    {
      var c := cb(pointIdx);
      if c.None? {
        return false, r;
      }
      var (k, p) := c.value;
      var tmp := Strauss.Ecmult(g, preG, p, k, None);
      Zero(g, Mul(g, k, p));
      Assoc(g, gen, Part(g, cb, 0, pointIdx), tmp);
      r := g.add(r, tmp);
    }
    ok := true;
  }

  /** `f(...)`: the batch function that was chosen. */
  method Batch<P(==, !new)>(g: Group<P>, preG: seq<P>, z: Sizes, maxAlloc: nat, ng: Option<Scalar>,
                            cb: Callback<P>, n: nat, offset: nat, pippenger: bool) returns (ok: bool, r: P)
    requires Laws(g) && Strauss.GeneratorTable(g, preG)
    requires BatchFits(z, maxAlloc, n, pippenger)
    ensures BatchResult(g, cb, ng, offset, n, ok, r)
  {
    if pippenger {
      ok, r := PippengerBatch(g, z, maxAlloc, ng, cb, n, offset);
    } else {
      ok, r := StraussBatch(g, preG, z, maxAlloc, ng, cb, n, offset);
    }
  }

  /** How many of n points the batches take: none when they are empty. */
  function Taken(n: nat, size: nat): nat {
    if size == 0 then 0 else n
  }

  /** How many points come before batch i. */
  ghost function Before(n: nat, batches: nat, size: nat, i: nat): nat {
    if i < batches then Offset(size, i) else Taken(n, size)
  }

  lemma NextBatch(n: nat, batches: nat, size: nat, i: nat, done: nat, nbp: nat)
    requires i < batches && done == Before(n, batches, size, i) <= n
    requires size == 0 || Offset(size, batches - 1) < n <= Offset(size, batches)
    requires nbp == if n - done < size then n - done else size
    ensures nbp <= size && (size > 0 ==> nbp >= 1)
    ensures done + nbp == Before(n, batches, size, i + 1) <= n
    ensures size == 0 ==> done == 0
  {
    OffsetIsProduct(size, i);
    OffsetMono(size, i, batches - 1);
    OffsetMono(size, i + 1, batches - 1 + (if i + 1 == batches then 1 else 0));
  }

  /** The loop over the batches. Batch i starts at point size * i; every batch has
      between 1 and `size` points and the first one alone counts the generator.
      Batches of size 0 leave the generator's part alone. */
  method RunBatches<P(==, !new)>(g: Group<P>, preG: seq<P>, z: Sizes, maxAlloc: nat, ng: Option<Scalar>,
                                 cb: Callback<P>, n0: nat, batches: nat, size: nat, pippenger: bool)
      returns (ok: bool, r: P)
    requires Laws(g) && Strauss.GeneratorTable(g, preG)
    requires batches >= 1
    requires if size == 0 then !pippenger else Offset(size, batches - 1) < n0 <= Offset(size, batches)
    requires forall m :: 1 <= m <= size ==> BatchFits(z, maxAlloc, m, pippenger)
    ensures ok <==> AllSome(cb, 0, Taken(n0, size))
    ensures ok ==> r == Expected(g, cb, Taken(n0, size), ng)
  {
    r := g.zero;
    Zero(g, r);
    var n := n0;
    ghost var done := 0;
    for i := 0 to batches
      invariant done <= n0 && n == n0 - done
      invariant done == Before(n0, batches, size, i)
      invariant AllSome(cb, 0, done)
      invariant r == if i == 0 then g.zero else Expected(g, cb, done, ng)
    {
      var nbp := if n < size then n else size;
      var offset := Offset(size, i);
      NextBatch(n0, batches, size, i, done, nbp);
      var ngi := if i == 0 then ng else None;
      var tmp;
      ok, tmp := Batch(g, preG, z, maxAlloc, ngi, cb, nbp, offset, pippenger);
      if !ok {
        return;
      }
      AddBatch(g, cb, ng, done, nbp, r, tmp, i == 0);
      r := g.add(r, tmp);
      n := n - nbp;
      done := done + nbp;
    }
    ok := true;
  }

  lemma AddBatch<P(!new)>(g: Group<P>, cb: Callback<P>, ng: Option<Scalar>, done: nat, nbp: nat, r: P, tmp: P,
                          first: bool)
    requires Laws(g) && AllSome(cb, 0, done) && AllSome(cb, done, nbp) && (first ==> done == 0)
    requires r == if first then g.zero else Expected(g, cb, done, ng)
    requires tmp == g.add(Strauss.GeneratorPart(g, if first then ng else None), Part(g, cb, done, nbp))
    ensures AllSome(cb, 0, done + nbp)
    ensures g.add(r, tmp) == Expected(g, cb, done + nbp, ng)
  {
    PartConcat(g, cb, 0, done, nbp);
    Zero(g, tmp);
    if !first {
      Zero(g, Part(g, cb, done, nbp));
      Assoc(g, Strauss.GeneratorPart(g, ng), Part(g, cb, 0, done), Part(g, cb, done, nbp));
    } else {
      Zero(g, Part(g, cb, 0, nbp));
    }
  }

  /** A result, or what division by zero leaves undefined. */
  datatype Outcome = Failure | Success | Undefined

  /** The naive sum, failing exactly where the callback does. */
  ghost predicate Answers<P(!new)>(g: Group<P>, cb: Callback<P>, n: nat, ng: Option<Scalar>, out: Outcome, r: P) {
    && out != Undefined
    && (out.Success? <==> AllSome(cb, 0, n))
    && (out.Success? ==> r == Expected(g, cb, n, ng))
  }

  function Returned(ok: bool): Outcome {
    if ok then Success else Failure
  }

  /** What following a plan comes to, on n points. */
  ghost predicate Follows<P(!new)>(g: Group<P>, cb: Callback<P>, n: nat, ng: Option<Scalar>, plan: Plan,
                                   out: Outcome, r: P)
    requires n <= SIZE_MAX
  {
    match plan
    case NoRoom => out == Failure
    case Crash => out == Undefined
    case Run(batches, _, _) =>
      if n + batches - 1 <= SIZE_MAX then Answers(g, cb, n, ng, out, r)
      else out == Success && r == Strauss.GeneratorPart(g, ng)
  }

  /** `secp256k1_ecmult_multi_var`. `scratch` is the largest allocation that the
      scratch space admits, or None for no scratch space. */
  method MultiVar<P(==, !new)>(g: Group<P>, preG: seq<P>, z: Sizes, scratch: Option<nat>, ng: Option<Scalar>,
                               cb: Callback<P>, n: nat) returns (out: Outcome, r: P)
    requires Laws(g) && Strauss.GeneratorTable(g, preG) && Positive(z)
    requires n <= SIZE_MAX && (scratch.Some? ==> scratch.value <= SIZE_MAX)
    ensures n == 0 || scratch.None? ==> Answers(g, cb, n, ng, out, r)
    ensures n > 0 && scratch.Some? ==>
      Follows(g, cb, n, ng, Planned(z, scratch.value, PippengerMax(z, scratch.value), n), out, r)
    // Where both kinds of batch have room for a point and nothing can wrap, only a
    // callback can fail.
    ensures n > 0 && scratch.Some? && 2 * n <= SIZE_MAX + 1 && n + scratch.value - 1 <= SIZE_MAX
         && Fits(z, 1, scratch.value) && StraussScratchSize(z, 1) <= scratch.value
        ==> Answers(g, cb, n, ng, out, r)
    ensures n > 0 && scratch.Some? && !Fits(z, 1, scratch.value) ==> out == Failure
  {
    r := g.zero;
    Zero(g, r);
    if ng.None? && n == 0 {
      return Success, r;
    } else if n == 0 {
      r := Strauss.Ecmult(g, preG, r, 0, ng);
      ghost var gen := Strauss.GeneratorPart(g, ng);
      Zero(g, gen);
      return Success, r;
    }
    if scratch.None? {
      var ok;
      ok, r := MultiVarSimple(g, preG, ng, cb, n);
      return Returned(ok), r;
    }
    out, r := MultiVarBatched(g, preG, z, scratch.value, ng, cb, n);
    WhereItAnswers(g, cb, z, scratch.value, ng, n, out, r);
  }

  lemma WhereItAnswers<P(!new)>(g: Group<P>, cb: Callback<P>, z: Sizes, maxAlloc: nat, ng: Option<Scalar>,
                                n: nat, out: Outcome, r: P)
    requires Positive(z) && 1 <= n <= SIZE_MAX && maxAlloc <= SIZE_MAX
    requires Follows(g, cb, n, ng, Planned(z, maxAlloc, PippengerMax(z, maxAlloc), n), out, r)
    ensures 2 * n <= SIZE_MAX + 1 && n + maxAlloc - 1 <= SIZE_MAX
         && Fits(z, 1, maxAlloc) && StraussScratchSize(z, 1) <= maxAlloc
        ==> Answers(g, cb, n, ng, out, r)
    ensures !Fits(z, 1, maxAlloc) ==> out == Failure
  {
    var m := PippengerMax(z, maxAlloc);
    if !Fits(z, 1, maxAlloc) {
      assert m == 0;
    } else if 2 * n <= SIZE_MAX + 1 && n + maxAlloc - 1 <= SIZE_MAX && StraussScratchSize(z, 1) <= maxAlloc {
      PlanSuffices(z, maxAlloc, m, n);
      PlanIsRight(z, maxAlloc, m, n);
    }
  }

  /** How many batches, of what size, and with which function. */
  method CutPoints(z: Sizes, maxAlloc: nat, n: nat) returns (plan: Plan)
    requires Positive(z) && 1 <= n <= SIZE_MAX && maxAlloc <= SIZE_MAX
    ensures plan == Planned(z, maxAlloc, PippengerMax(z, maxAlloc), n)
  {
    var maxPoints := PippengerMaxPoints(z, maxAlloc);
    if maxPoints == 0 {
      return NoRoom;
    } else if maxPoints > ECMULT_MAX_POINTS_PER_BATCH {
      maxPoints := ECMULT_MAX_POINTS_PER_BATCH;
    }
    var batches := CeilDiv(n, maxPoints);
    if batches == 0 {
      return Crash;
    }
    var size := CeilDiv(n, batches);
    if size >= ECMULT_PIPPENGER_THRESHOLD {
      return Run(batches, size, true);
    }
    maxPoints := StraussMaxPoints(z, maxAlloc);
    if maxPoints == 0 {
      return NoRoom;
    }
    batches := CeilDiv(n, maxPoints);
    if batches == 0 {
      return Crash;
    }
    size := CeilDiv(n, batches);
    plan := Run(batches, size, false);
  }

  /** The part of it that works in batches. */
  method MultiVarBatched<P(==, !new)>(g: Group<P>, preG: seq<P>, z: Sizes, maxAlloc: nat, ng: Option<Scalar>,
                                      cb: Callback<P>, n: nat) returns (out: Outcome, r: P)
    requires Laws(g) && Strauss.GeneratorTable(g, preG) && Positive(z)
    requires 1 <= n <= SIZE_MAX && maxAlloc <= SIZE_MAX
    ensures Follows(g, cb, n, ng, Planned(z, maxAlloc, PippengerMax(z, maxAlloc), n), out, r)
  {
    r := g.zero;
    var plan := CutPoints(z, maxAlloc, n);
    PlanIsRight(z, maxAlloc, PippengerMax(z, maxAlloc), n);
    match plan
    case NoRoom => out := Failure;
    case Crash => out := Undefined;
    case Run(batches, size, pippenger) =>
      OffsetIsProduct(size, batches - 1);
      OffsetIsProduct(size, batches);
      var ok;
      ok, r := RunBatches(g, preG, z, maxAlloc, ng, cb, n, batches, size, pippenger);
      Zero(g, Strauss.GeneratorPart(g, ng));
      out := Returned(ok);
  }
}
