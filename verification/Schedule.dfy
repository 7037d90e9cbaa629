/**
 How many points a scratch space admits, and how they are cut into batches.
 */
module Schedule {
  import opened Arith
  import FixedWnaf

  const SIZE_MAX: nat := 0xFFFF_FFFF_FFFF_FFFF
  const MAX_BUCKET_WINDOW: nat := 12
  const ECMULT_MAX_POINTS_PER_BATCH: nat := 10000000
  const ECMULT_PIPPENGER_THRESHOLD: nat := 160

  /** The object sizes that the scratch requirements are computed from. */
  datatype Sizes = Sizes(ge: nat, gej: nat, fe: nat, scalar: nat, int32: nat,
                         pippengerPoint: nat, pippengerState: nat, straussPoint: nat)

  predicate Positive(z: Sizes) {
    z.ge > 0 && z.gej > 0 && z.scalar > 0 && z.int32 > 0
  }

  /** The window that is best for n points. */
  function BucketWindow(n: nat): nat {
    if n <= 1 then 1
    else if n <= 11 then 2
    else if n <= 45 then 3
    else if n <= 100 then 4
    else if n <= 275 then 5
    else if n <= 625 then 6
    else if n <= 1850 then 7
    else if n <= 3400 then 8
    else if n <= 9630 then 9
    else if n <= 17900 then 10
    else if n <= 32800 then 11
    else MAX_BUCKET_WINDOW
  }

  /** The largest number of points for which a window is best. */
  function BucketWindowInv(bucketWindow: int): nat {
    match bucketWindow
    case 1 => 1
    case 2 => 11
    case 3 => 45
    case 4 => 100
    case 5 => 275
    case 6 => 625
    case 7 => 1850
    case 8 => 3400
    case 9 => 9630
    case 10 => 17900
    case 11 => 32800
    case 12 => SIZE_MAX
    case _ => 0
  }

  /** The two functions are a Galois connection. */
  lemma WindowGalois(n: nat, b: nat)
    requires n <= SIZE_MAX && 1 <= b <= MAX_BUCKET_WINDOW
    ensures n <= BucketWindowInv(b) <==> BucketWindow(n) <= b
  {
    if b == 1 {} else if b == 2 {} else if b == 3 {} else if b == 4 {} else if b == 5 {}
    else if b == 6 {} else if b == 7 {} else if b == 8 {} else if b == 9 {} else if b == 10 {} else if b == 11 {}
  }

  function EntrySize(z: Sizes, bucketWindow: nat): nat {
    z.ge + z.scalar + z.pippengerPoint
    + (FixedWnaf.SizeBits(FixedWnaf.WNAF_BITS, bucketWindow + 1) + 1) * z.int32
  }

  /** What a batch needs whatever its number of points, with one entry for G. */
  function Overhead(z: Sizes, bucketWindow: nat): nat {
    Pow2(bucketWindow) * z.gej + EntrySize(z, bucketWindow) + z.pippengerState
  }

  /** The scratch size for n points beside the generator. */
  function PippengerScratchSize(z: Sizes, n: nat, bucketWindow: nat): nat {
    var entries := n + 1;
    Pow2(bucketWindow) * z.gej + z.pippengerState + entries * EntrySize(z, bucketWindow)
  }

  /** What a batch of n points and the generator allocates: points, scalars, the
      state with its point states and digits, and buckets. One number for each entry
      is asked for beyond that. */
  lemma PippengerAllocates(z: Sizes, n: nat, w: nat)
    ensures var entries, words := n + 1, FixedWnaf.SizeBits(FixedWnaf.WNAF_BITS, w + 1);
            entries * z.ge + entries * z.scalar + z.pippengerState + entries * z.pippengerPoint
            + (entries * words) * z.int32 + Pow2(w) * z.gej
            == PippengerScratchSize(z, n, w) - entries * z.int32
  {
    var entries, words := n + 1, FixedWnaf.SizeBits(FixedWnaf.WNAF_BITS, w + 1);
    Spread(entries, z.ge + z.scalar, z.pippengerPoint, (words + 1) * z.int32);
    Spread(entries, z.ge, z.scalar, 0);
    Regroup(entries, words, z.int32);
  }

  lemma Spread(k: int, a: int, b: int, c: int)
    ensures k * (a + b + c) == k * a + k * b + k * c
  {
  }

  lemma Regroup(k: int, n: int, a: int)
    ensures k * ((n + 1) * a) == (k * n) * a + k * a
  {
    assert (n + 1) * a == n * a + a;
    assert k * (n * a) == (k * n) * a;
  }

  ghost predicate Fits(z: Sizes, n: nat, maxAlloc: nat) {
    PippengerScratchSize(z, n, BucketWindow(n)) <= maxAlloc
  }

  lemma ScratchSizeIsLinear(z: Sizes, n: nat, b: nat)
    ensures PippengerScratchSize(z, n, b) == Overhead(z, b) + n * EntrySize(z, b)
  {
  }

  /** The number of points that one window has room for. */
  lemma RoomFor(z: Sizes, b: nat, maxAlloc: nat, n: nat)
    requires EntrySize(z, b) > 0 && Overhead(z, b) <= maxAlloc
    ensures n <= (maxAlloc - Overhead(z, b)) / EntrySize(z, b)
       <==> PippengerScratchSize(z, n, b) <= maxAlloc
  {
    ScratchSizeIsLinear(z, n, b);
    DivisionRoom(maxAlloc - Overhead(z, b), EntrySize(z, b), n);
  }

  lemma DivisionRoom(space: nat, e: nat, n: nat)
    requires e > 0
    ensures n <= space / e <==> n * e <= space
  {
    var q := space / e;
    assert space == q * e + space % e;
    if n <= q {
      MulMono(n, q, e, e);
    } else {
      MulMono(q + 1, n, e, e);
      assert (q + 1) * e == q * e + e;
    }
  }

  lemma EntrySizePositive(z: Sizes, b: nat)
    requires Positive(z)
    ensures EntrySize(z, b) > 0
  {
    MulMono(0, FixedWnaf.SizeBits(FixedWnaf.WNAF_BITS, b + 1) + 1, 0, z.int32);
  }

  /** The search's invariant before window b: every count up to res fits, and res
      is the last count of the windows below b. */
  ghost predicate Searched(z: Sizes, maxAlloc: nat, b: nat, res: nat) {
    && 1 <= b <= MAX_BUCKET_WINDOW + 1
    && res == BucketWindowInv(b - 1)
    && forall n :: 1 <= n <= res ==> Fits(z, n, maxAlloc)
  }

  /** res is the largest number such that it and every smaller count fit. */
  ghost predicate LargestSafe(z: Sizes, maxAlloc: nat, res: nat) {
    && (forall n :: 1 <= n <= res ==> Fits(z, n, maxAlloc))
    && (res < SIZE_MAX ==> !Fits(z, res + 1, maxAlloc))
  }

  lemma LargestExists(z: Sizes, maxAlloc: nat, k: nat) returns (res: nat)
    requires k <= SIZE_MAX && forall n :: 1 <= n <= k ==> Fits(z, n, maxAlloc)
    ensures res <= SIZE_MAX && LargestSafe(z, maxAlloc, res)
    decreases SIZE_MAX - k
  {
    if k == SIZE_MAX || !Fits(z, k + 1, maxAlloc) {
      res := k;
    } else {
      res := LargestExists(z, maxAlloc, k + 1);
    }
  }

  /** The value that `secp256k1_pippenger_max_points` is for. */
  ghost function PippengerMax(z: Sizes, maxAlloc: nat): (res: nat)
    ensures res <= SIZE_MAX && LargestSafe(z, maxAlloc, res)
  {
    assert exists res: nat :: res <= SIZE_MAX && LargestSafe(z, maxAlloc, res) by {
      var res := LargestExists(z, maxAlloc, 0);
    }
    var res: nat :| res <= SIZE_MAX && LargestSafe(z, maxAlloc, res);
    res
  }

  lemma LargestUnique(z: Sizes, maxAlloc: nat, a: nat, b: nat)
    requires a <= SIZE_MAX && LargestSafe(z, maxAlloc, a)
    requires b <= SIZE_MAX && LargestSafe(z, maxAlloc, b)
    ensures a == b
  {
  }

  lemma InvMonotone(b: nat)
    requires 1 <= b <= MAX_BUCKET_WINDOW
    ensures BucketWindowInv(b - 1) < BucketWindowInv(b) <= SIZE_MAX
    ensures forall n :: BucketWindowInv(b - 1) < n <= BucketWindowInv(b) ==> BucketWindow(n) == b
  {
    if b == 1 {} else if b == 2 {} else if b == 3 {} else if b == 4 {} else if b == 5 {}
    else if b == 6 {} else if b == 7 {} else if b == 8 {} else if b == 9 {} else if b == 10 {} else if b == 11 {}
  }

  /** A window that does not even hold its overhead ends the search. */
  lemma StopAtOverhead(z: Sizes, maxAlloc: nat, b: nat, res: nat)
    requires Searched(z, maxAlloc, b, res) && b <= MAX_BUCKET_WINDOW
    requires Overhead(z, b) > maxAlloc
    ensures res <= SIZE_MAX && LargestSafe(z, maxAlloc, res)
  {
    InvMonotone(b);
    ScratchSizeIsLinear(z, res + 1, b);
    MulMono(0, res + 1, 0, EntrySize(z, b));
  }

  /** One window with room for `room` points. */
  lemma OneWindow(z: Sizes, maxAlloc: nat, b: nat, res: nat, room: nat, nPoints: nat, res': nat)
    requires Positive(z) && Searched(z, maxAlloc, b, res) && b <= MAX_BUCKET_WINDOW
    requires EntrySize(z, b) > 0 && Overhead(z, b) <= maxAlloc
    requires room == (maxAlloc - Overhead(z, b)) / EntrySize(z, b)
    requires nPoints == if room > BucketWindowInv(b) then BucketWindowInv(b) else room
    requires res' == if nPoints > res then nPoints else res
    ensures nPoints < BucketWindowInv(b) ==> res' <= SIZE_MAX && LargestSafe(z, maxAlloc, res')
    ensures nPoints == BucketWindowInv(b) ==> Searched(z, maxAlloc, b + 1, res')
  {
    InvMonotone(b);
    forall n | res < n <= BucketWindowInv(b)
      ensures Fits(z, n, maxAlloc) <==> n <= room
    {
      RoomFor(z, b, maxAlloc, n);
    }
  }

  lemma QuotientIsNat(x: nat, d: nat)
    requires d > 0
    ensures x / d >= 0
  {
  }

  /** One window of the search; `done` where the code leaves the loop. */
  method TryWindow(z: Sizes, maxAlloc: nat, bucketWindow: nat, res0: nat) returns (res: nat, done: bool)
    requires Positive(z) && Searched(z, maxAlloc, bucketWindow, res0) && bucketWindow <= MAX_BUCKET_WINDOW
    ensures done ==> res <= SIZE_MAX && LargestSafe(z, maxAlloc, res)
    ensures !done ==> Searched(z, maxAlloc, bucketWindow + 1, res)
  {
    res := res0;
    var maxPoints := BucketWindowInv(bucketWindow);
    var entrySize := EntrySize(z, bucketWindow);
    var spaceOverhead := Overhead(z, bucketWindow);
    if spaceOverhead > maxAlloc {
      StopAtOverhead(z, maxAlloc, bucketWindow, res);
      return res, true;
    }
    EntrySizePositive(z, bucketWindow);
    var spaceForPoints := maxAlloc - spaceOverhead;
    QuotientIsNat(spaceForPoints, entrySize);
    var room := spaceForPoints / entrySize;
    var nPoints := if room > maxPoints then maxPoints else room;
    if nPoints > res {
      res := nPoints;
    }
    OneWindow(z, maxAlloc, bucketWindow, res0, room, nPoints, res);
    // A larger window may support more points, but then the caller could not use
    // every smaller number.
    done := nPoints < maxPoints;
  }

  /** `secp256k1_pippenger_max_points`. */
  method PippengerMaxPoints(z: Sizes, maxAlloc: nat) returns (res: nat)
    requires Positive(z)
    ensures LargestSafe(z, maxAlloc, res) && res == PippengerMax(z, maxAlloc)
  {
    res := Search(z, maxAlloc);
    LargestUnique(z, maxAlloc, res, PippengerMax(z, maxAlloc));
  }

  method Search(z: Sizes, maxAlloc: nat) returns (res: nat)
    requires Positive(z)
    ensures res <= SIZE_MAX && LargestSafe(z, maxAlloc, res)
  {
    res := 0;
    assert BucketWindowInv(0) == 0;
    for bucketWindow := 1 to MAX_BUCKET_WINDOW + 1
      invariant Searched(z, maxAlloc, bucketWindow, res)
    {
      var done;
      res, done := TryWindow(z, maxAlloc, bucketWindow, res);
      if done {
        return;
      }
    }
    assert BucketWindowInv(MAX_BUCKET_WINDOW) == SIZE_MAX;
  }

  function StraussPointSize(z: Sizes): nat {
    (z.ge + z.gej + z.fe) * 8 + z.straussPoint + z.gej + z.scalar
  }

  function StraussScratchSize(z: Sizes, n: nat): nat {
    n * StraussPointSize(z)
  }

  /** What a Strauss batch allocates: points, scalars, three tables of eight entries
      for each point (Jacobian points, z ratios, affine points) and point states. */
  lemma StraussAllocates(z: Sizes, n: nat)
    ensures n * z.gej + n * z.scalar + (n * 8) * z.gej + (n * 8) * z.fe + (n * 8) * z.ge + n * z.straussPoint
         == StraussScratchSize(z, n)
  {
    Spread(n, (z.ge + z.gej + z.fe) * 8, z.straussPoint, z.gej + z.scalar);
    Spread(n, z.gej, z.scalar, 0);
    Spread(n * 8, z.ge, z.gej, z.fe);
    assert n * ((z.ge + z.gej + z.fe) * 8) == (n * 8) * (z.ge + z.gej + z.fe);
  }

  function StraussMaxPoints(z: Sizes, maxAlloc: nat): nat
    requires Positive(z)
  {
    maxAlloc / StraussPointSize(z)
  }

  lemma StraussFits(z: Sizes, maxAlloc: nat, n: nat)
    requires Positive(z) && n <= StraussMaxPoints(z, maxAlloc)
    ensures StraussScratchSize(z, n) <= maxAlloc
  {
    DivisionRoom(maxAlloc, StraussPointSize(z), n);
  }

  /** size_t arithmetic. */
  function SizeT(x: nat): nat {
    x % (SIZE_MAX + 1)
  }

  /** `(n + d - 1) / d` in size_t arithmetic. */
  function CeilDiv(n: nat, d: nat): nat
    requires d > 0
  {
    SizeT(n + d - 1) / d
  }

  lemma CeilDivBounds(n: nat, d: nat)
    requires n >= 1 && d >= 1 && n + d - 1 <= SIZE_MAX
    ensures var q := CeilDiv(n, d); 1 <= q <= n && (q - 1) * d < n <= q * d
  {
    var q, t := CeilDiv(n, d), n + d - 1;
    assert SizeT(t) == t;
    assert t == q * d + t % d;
    assert (q - 1) * d == q * d - d;
    MulAway(q, d);
    if q > n {
      MulMono(n, q - 1, 1, d);
    }
  }

  /** When the sum wraps, the quotient is 0 and the next division would be by it. */
  lemma CeilDivWraps(n: nat, d: nat)
    requires 1 <= n <= SIZE_MAX && 1 <= d <= SIZE_MAX
    ensures CeilDiv(n, d) == 0 <==> n + d - 1 > SIZE_MAX
  {
    var t := n + d - 1;
    if t > SIZE_MAX {
      assert SizeT(t) == t - SIZE_MAX - 1 < d;
      ModSmall(SizeT(t), d);
    } else {
      CeilDivBounds(n, d);
    }
  }

  lemma BatchArithmetic(n: nat, m: nat, b: nat, s: nat)
    requires b >= 1 && s >= 1 && (b - 1) * m < n <= b * m && (s - 1) * b < n
    ensures s <= m && (b - 1) * s < n
  {
    if s > m {
      MulMono(m, s - 1, b, b);
      assert false;
    }
    MulMono(b - 1, b - 1, s, m);
  }

  /** How n points are cut into batches: the code divides by zero, or gets a
      number of batches and the size of each but the last. */
  datatype Cut = DivisionByZero | Cut(batches: nat, size: nat)

  function CutInto(n: nat, maxPoints: nat): Cut
    requires maxPoints > 0
  {
    var batches := CeilDiv(n, maxPoints);
    if batches == 0 then DivisionByZero else Cut(batches, CeilDiv(n, batches))
  }

  /** Neither of the two sums wraps. */
  predicate NoWrap(n: nat, maxPoints: nat)
    requires maxPoints > 0
  {
    n + maxPoints - 1 <= SIZE_MAX && n + CeilDiv(n, maxPoints) - 1 <= SIZE_MAX
  }

  /** None of the batches is larger than allowed, they cover the points, and the
      last one still has a point left. */
  ghost predicate Covers(c: Cut, n: nat, maxPoints: nat) {
    && c.Cut? && 1 <= c.batches <= n && 1 <= c.size <= maxPoints
    && (c.batches - 1) * c.size < n <= c.batches * c.size
  }

  /** The cut is right exactly when neither sum wraps. Where the first one does, the
      code divides by zero; where the second one does, every batch is empty. */
  lemma CutIsRight(n: nat, maxPoints: nat)
    requires 1 <= n <= SIZE_MAX && 1 <= maxPoints <= SIZE_MAX
    ensures var c := CutInto(n, maxPoints);
            && (c.DivisionByZero? <==> n + maxPoints - 1 > SIZE_MAX)
            && (Covers(c, n, maxPoints) <==> NoWrap(n, maxPoints))
            && (c.Cut? ==> (n <= c.batches * c.size <==> NoWrap(n, maxPoints)))
            && (c.Cut? && !NoWrap(n, maxPoints) ==> c.size == 0)
            // Fewer batches would not do.
            && (c.Cut? ==> (c.batches - 1) * maxPoints < n)
  {
    CeilDivWraps(n, maxPoints);
    if n + maxPoints - 1 <= SIZE_MAX {
      CeilDivBounds(n, maxPoints);
      var batches := CeilDiv(n, maxPoints);
      CeilDivWraps(n, batches);
      if n + batches - 1 <= SIZE_MAX {
        CeilDivBounds(n, batches);
        BatchArithmetic(n, maxPoints, batches, CeilDiv(n, batches));
      }
    }
  }

  /** Counts up to 2^63 never wrap the second sum. */
  lemma HalfIsRight(n: nat, maxPoints: nat)
    requires 1 <= n && 2 * n <= SIZE_MAX + 1 && maxPoints >= 1 && n + maxPoints - 1 <= SIZE_MAX
    ensures NoWrap(n, maxPoints)
  {
    CeilDivBounds(n, maxPoints);
  }

  /** Beyond, points can be lost without any division by zero. */
  lemma PointsLost()
    ensures CutInto(0x8000_0000_0000_0001, 1) == Cut(0x8000_0000_0000_0001, 0)
    ensures CutInto(0xC000_0000_0000_0000, 2) == Cut(0x6000_0000_0000_0000, 0)
    ensures CutInto(SIZE_MAX, 2) == DivisionByZero
  {
  }

  // ---- the plan for a scratch space ----

  /** What `secp256k1_ecmult_multi_var` decides before it multiplies. */
  datatype Plan = NoRoom | Crash | Run(batches: nat, size: nat, pippenger: bool)

  function PlanOf(c: Cut, pippenger: bool): Plan {
    match c
    case DivisionByZero => Crash
    case Cut(batches, size) => Run(batches, size, pippenger)
  }

  /** The most points that a batch of either kind may have. */
  function Cap(pippengerMax: nat): nat {
    if pippengerMax > ECMULT_MAX_POINTS_PER_BATCH then ECMULT_MAX_POINTS_PER_BATCH else pippengerMax
  }

  function Planned(z: Sizes, maxAlloc: nat, pippengerMax: nat, n: nat): Plan
    requires Positive(z)
  {
    if pippengerMax == 0 then NoRoom
    else
      var first := CutInto(n, Cap(pippengerMax));
      if first.DivisionByZero? || first.size >= ECMULT_PIPPENGER_THRESHOLD then PlanOf(first, true)
      else if StraussMaxPoints(z, maxAlloc) == 0 then NoRoom
      else PlanOf(CutInto(n, StraussMaxPoints(z, maxAlloc)), false)
  }

  /** Any batch of the plan fits the scratch space. */
  ghost predicate BatchFits(z: Sizes, maxAlloc: nat, n: nat, pippenger: bool) {
    if pippenger then Fits(z, n, maxAlloc) else StraussScratchSize(z, n) <= maxAlloc
  }

  lemma StraussRoom(z: Sizes, maxAlloc: nat)
    requires Positive(z)
    ensures StraussMaxPoints(z, maxAlloc) <= maxAlloc
    ensures StraussMaxPoints(z, maxAlloc) > 0 <==> StraussScratchSize(z, 1) <= maxAlloc
  {
    var q := StraussMaxPoints(z, maxAlloc);
    DivisionRoom(maxAlloc, StraussPointSize(z), 1);
    DivisionRoom(maxAlloc, StraussPointSize(z), q);
    MulMono(q, q, 1, StraussPointSize(z));
  }

  /** The batches of a plan fit, and cover the points exactly when the sum of the
      second division does not wrap; otherwise they are all empty, and take the
      Strauss form. */
  lemma PlanIsRight(z: Sizes, maxAlloc: nat, pippengerMax: nat, n: nat)
    requires Positive(z) && LargestSafe(z, maxAlloc, pippengerMax)
    requires 1 <= n <= SIZE_MAX && maxAlloc <= SIZE_MAX
    ensures var plan := Planned(z, maxAlloc, pippengerMax, n);
            plan.Run? ==>
              && plan.batches >= 1
              && (forall m :: 1 <= m <= plan.size ==> BatchFits(z, maxAlloc, m, plan.pippenger))
              && (n + plan.batches - 1 <= SIZE_MAX ==>
                    plan.size >= 1 && (plan.batches - 1) * plan.size < n <= plan.batches * plan.size)
              && (n + plan.batches - 1 > SIZE_MAX ==> plan.size == 0 && !plan.pippenger)
              && (plan.pippenger ==> 160 <= plan.size <= 10_000_000)
  {
    if pippengerMax > 0 {
      var cap := Cap(pippengerMax);
      CutIsRight(n, cap);
      var first := CutInto(n, cap);
      if first.Cut? && first.size < ECMULT_PIPPENGER_THRESHOLD && StraussMaxPoints(z, maxAlloc) > 0 {
        StraussRoom(z, maxAlloc);
        CutIsRight(n, StraussMaxPoints(z, maxAlloc));
        forall m | 1 <= m <= StraussMaxPoints(z, maxAlloc) ensures BatchFits(z, maxAlloc, m, false) {
          StraussFits(z, maxAlloc, m);
        }
      }
    }
  }

  /** Counts up to 2^63 on allocations that leave the first sum room are cut right
      as soon as one point fits. */
  lemma PlanSuffices(z: Sizes, maxAlloc: nat, pippengerMax: nat, n: nat)
    requires Positive(z) && LargestSafe(z, maxAlloc, pippengerMax)
    requires 1 <= n && 2 * n <= SIZE_MAX + 1 && n + maxAlloc - 1 <= SIZE_MAX
    requires Fits(z, 1, maxAlloc) && StraussScratchSize(z, 1) <= maxAlloc
    ensures var plan := Planned(z, maxAlloc, pippengerMax, n);
            plan.Run? && plan.size >= 1
  {
    HalfIsRight(n, Cap(pippengerMax));
    CutIsRight(n, Cap(pippengerMax));
    StraussRoom(z, maxAlloc);
    HalfIsRight(n, StraussMaxPoints(z, maxAlloc));
    CutIsRight(n, StraussMaxPoints(z, maxAlloc));
  }
}
