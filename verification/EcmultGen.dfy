/**
 Multiplication of the generator with a blinded comb table,
 `secp256k1_ecmult_gen_context` and `secp256k1_ecmult_gen`.
 */
module EcmultGen {
  import opened Arith
  import opened Scalars
  import opened CurveGroup
  import opened EcmultConst

  const ROWS: nat := 64
  const COLUMNS: nat := 16

  /** The multiple of the blinding point that row j carries. The last row takes
      back what the others add up to. */
  ghost function RowBlind(j: nat): int {
    if j < 63 then Pow2(j) else 1 - Pow2(63)
  }

  ghost function Entry<P(!new)>(g: Group<P>, nums: P, j: nat, i: nat): P {
    g.add(Mul(g, RowBlind(j), nums), Mul(g, Pow2(4 * j) * i, g.gen))
  }

  /** No table entry is infinity. The point nums is chosen with unknown discrete
      logarithm; entries must be finite to be converted to affine form. */
  ghost predicate Suitable<P(!new)>(g: Group<P>, nums: P) {
    forall j, i :: 0 <= j < ROWS && 0 <= i < COLUMNS ==> Entry(g, nums, j, i) != g.zero
  }

  ghost predicate RowDone<P(!new)>(g: Group<P>, nums: P, prec: seq<P>, j: nat) {
    |prec| == ROWS * COLUMNS && j < ROWS
    && forall i :: 0 <= i < COLUMNS ==> prec[COLUMNS * j + i] == Entry(g, nums, j, i)
  }

  ghost predicate IsComb<P(!new)>(g: Group<P>, nums: P, prec: seq<P>) {
    |prec| == ROWS * COLUMNS && forall j :: 0 <= j < ROWS ==> RowDone(g, nums, prec, j)
  }

  /** The sum of the row blinds up to row j. */
  ghost function BlindSum(j: nat): int {
    if j <= 63 then Pow2(j) - 1 else 0
  }

  lemma BlindStep(j: nat)
    requires j < ROWS
    ensures BlindSum(j + 1) == BlindSum(j) + RowBlind(j)
  {
  }

  lemma AddParts<P(!new)>(g: Group<P>, p: P, q: P, a: int, b: int, c: int, d: int)
    requires Laws(g)
    ensures g.add(g.add(Mul(g, a, p), Mul(g, b, q)), g.add(Mul(g, d, q), Mul(g, c, p)))
         == g.add(Mul(g, a + c, p), Mul(g, b + d, q))
  {
    MulAdd(g, a, c, p);
    MulAdd(g, b, d, q);
    Comm(g, Mul(g, d, q), Mul(g, c, p));
    Shuffle(g, Mul(g, a, p), Mul(g, b, q), Mul(g, c, p), Mul(g, d, q));
  }

  lemma Nibble(gnb: nat, blind: int, j: nat, bits: nat)
    requires bits == GetBits(gnb, 4 * j, 4)
    ensures (Low(gnb, 4 * j) - blind) + Pow2(4 * j) * bits == Low(gnb, 4 * (j + 1)) - blind
  {
    LowSplit(gnb, 4 * j, 4);
  }

  /** Adding the entry that four bits of the scalar select. */
  lemma AddEntry<P(!new)>(g: Group<P>, nums: P, gnb: nat, blind: int, j: nat, bits: nat)
    requires Laws(g) && j < ROWS && bits == GetBits(gnb, 4 * j, 4)
    ensures g.add(g.add(Mul(g, Low(gnb, 4 * j) - blind, g.gen), Mul(g, BlindSum(j), nums)), Entry(g, nums, j, bits))
         == g.add(Mul(g, Low(gnb, 4 * (j + 1)) - blind, g.gen), Mul(g, BlindSum(j + 1), nums))
  {
    BlindStep(j);
    Nibble(gnb, blind, j, bits);
    AddParts(g, g.gen, nums, Low(gnb, 4 * j) - blind, BlindSum(j), Pow2(4 * j) * bits, RowBlind(j));
  }

  /** The scan over a row that keeps one entry, whatever `adds` was before. */
  method Select<P>(prec: seq<P>, j: nat, bits: nat, adds0: P) returns (adds: P)
    requires |prec| == ROWS * COLUMNS && j < ROWS && bits < COLUMNS
    ensures adds == prec[COLUMNS * j + bits]
  {
    adds := adds0;
    for i := 0 to COLUMNS
      invariant i > bits ==> adds == prec[COLUMNS * j + bits]
    {
      if i == bits {
        adds := prec[COLUMNS * j + i];
      }
    }
  }

  /** Writes one row: numsbase, numsbase + gbase, ..., numsbase + 15 * gbase. */
  method FillRow<P(==, !new)>(g: Group<P>, prec: array<P>, j: nat, numsbase: P, gbase: P)
    requires Laws(g) && prec.Length == ROWS * COLUMNS && j < ROWS
    modifies prec
    ensures forall i :: 0 <= i < COLUMNS ==> prec[COLUMNS * j + i] == g.add(numsbase, Mul(g, i, gbase))
    ensures prec[..COLUMNS * j] == old(prec[..COLUMNS * j])
  {
    prec[COLUMNS * j] := numsbase;
    Zero(g, numsbase);
    for i := 1 to COLUMNS
      invariant prec[..COLUMNS * j] == old(prec[..COLUMNS * j])
      invariant forall k :: 0 <= k < i ==> prec[COLUMNS * j + k] == g.add(numsbase, Mul(g, k, gbase))
    {
      Assoc(g, numsbase, Mul(g, i - 1, gbase), gbase);
      prec[COLUMNS * j + i] := g.add(prec[COLUMNS * j + i - 1], gbase);
    }
  }

  lemma NextGbase<P(!new)>(g: Group<P>, j: nat, gbase: P)
    requires Laws(g) && gbase == Mul(g, Pow2(4 * j), g.gen)
    ensures Mul(g, 16, gbase) == Mul(g, Pow2(4 * (j + 1)), g.gen)
  {
    Pow2Add(4 * j, 4);
    assert Pow2(4) == 16;
    MulMul(g, 16, Pow2(4 * j), g.gen);
  }

  lemma NextNumsbase<P(!new)>(g: Group<P>, nums: P, j: nat, numsbase: P)
    requires Laws(g) && j < 63 && numsbase == Mul(g, Pow2(j), nums)
    ensures g.add(numsbase, numsbase) == Mul(g, Pow2(j + 1), nums)
    ensures g.add(g.neg(g.add(numsbase, numsbase)), nums) == Mul(g, 1 - Pow2(j + 1), nums)
  {
    var c: int := Pow2(j);
    MulAdd(g, c, c, nums);
    MulNeg(g, c + c, nums);
    MulSmall(g, nums);
    MulAdd(g, -(c + c), 1, nums);
  }

  lemma RowIsDone<P(!new)>(g: Group<P>, nums: P, prec: seq<P>, j: nat, numsbase: P, gbase: P)
    requires Laws(g) && j < ROWS && |prec| == ROWS * COLUMNS
    requires numsbase == Mul(g, RowBlind(j), nums) && gbase == Mul(g, Pow2(4 * j), g.gen)
    requires forall i :: 0 <= i < COLUMNS ==> prec[COLUMNS * j + i] == g.add(numsbase, Mul(g, i, gbase))
    ensures RowDone(g, nums, prec, j)
  {
    forall i | 0 <= i < COLUMNS ensures prec[COLUMNS * j + i] == Entry(g, nums, j, i) {
      MulMul(g, i, Pow2(4 * j), g.gen);
    }
  }

  method AddRow<P(==, !new)>(g: Group<P>, ghost nums: P, prec: array<P>, j: nat, numsbase: P, gbase: P)
    requires Laws(g) && prec.Length == ROWS * COLUMNS && j < ROWS
    requires numsbase == Mul(g, RowBlind(j), nums) && gbase == Mul(g, Pow2(4 * j), g.gen)
    requires forall k :: 0 <= k < j ==> RowDone(g, nums, prec[..], k)
    modifies prec
    ensures forall k :: 0 <= k < j + 1 ==> RowDone(g, nums, prec[..], k)
  {
    ghost var before := prec[..];
    FillRow(g, prec, j, numsbase, gbase);
    RowIsDone(g, nums, prec[..], j, numsbase, gbase);
    forall k | 0 <= k < j ensures RowDone(g, nums, prec[..], k) {
      assert RowDone(g, nums, before, k);
      assert prec[..COLUMNS * j] == before[..COLUMNS * j];
    }
  }

  /** The whole comb table. */
  method ComputeComb<P(==, !new)>(g: Group<P>, nums: P) returns (prec: array<P>)
    requires Laws(g)
    ensures fresh(prec) && IsComb(g, nums, prec[..])
  {
    prec := new P[ROWS * COLUMNS](_ => g.zero);
    var gbase := g.gen;
    var numsbase := nums;
    MulSmall(g, g.gen);
    MulSmall(g, nums);
    for j := 0 to ROWS
      invariant forall k :: 0 <= k < j ==> RowDone(g, nums, prec[..], k)
      invariant gbase == Mul(g, Pow2(4 * j), g.gen)
      invariant j < ROWS ==> numsbase == Mul(g, RowBlind(j), nums)
    {
      AddRow(g, nums, prec, j, numsbase, gbase);
      NextGbase(g, j, gbase);
      if j < 63 {
        NextNumsbase(g, nums, j, numsbase);
      }
      gbase := SixteenTimes(g, gbase);
      numsbase := g.add(numsbase, numsbase);
      if j == 62 {
        // The last row takes (1 - 2^63) * nums instead.
        numsbase := g.neg(numsbase);
        numsbase := g.add(numsbase, nums);
      }
    }
  }

  method SixteenTimes<P(==, !new)>(g: Group<P>, p: P) returns (r: P)
    requires Laws(g)
    ensures r == Mul(g, 16, p)
  {
    r := p;
    ghost var m := 1;
    MulSmall(g, p);
    for i := 0 to 4
      invariant r == Mul(g, m, p) && m == Pow2(i)
    {
      MulAdd(g, m, m, p);
      r := g.add(r, r);
      m := m + m;
    }
    assert Pow2(4) == 16;
  }

  class GenContext<P(==, !new)> {
    const g: Group<P>
    ghost const nums: P
    var prec: array?<P>
    var blind: Scalar
    var initial: P

    /** The comb table is there. */
    ghost predicate Built()
      reads this, prec
    {
      Laws(g) && Suitable(g, nums) && prec != null && IsComb(g, nums, prec[..])
    }

    /** The table is there and the starting point undoes the blinding scalar. */
    ghost predicate Valid()
      reads this, prec
    {
      Built() && initial == Mul(g, -(blind as int), g.gen)
    }

    /** `secp256k1_ecmult_gen_context_init`. */
    constructor (g: Group<P>, ghost nums: P)
      requires Laws(g) && Suitable(g, nums)
      ensures this.g == g && this.nums == nums && prec == null
    {
      this.g := g;
      this.nums := nums;
      prec := null;
      blind := 0;
      initial := g.zero;
    }

    /** Adds the entry of row j that the next four bits select. */
    method AddRowEntry(gnb: nat, ghost b: int, j: nat, r0: P, adds0: P) returns (r: P, adds: P)
      requires Built() && j < ROWS
      requires r0 == g.add(Mul(g, Low(gnb, 4 * j) - b, g.gen), Mul(g, BlindSum(j), nums))
      ensures r == g.add(Mul(g, Low(gnb, 4 * (j + 1)) - b, g.gen), Mul(g, BlindSum(j + 1), nums))
    {
      var bits := GetBits(gnb, 4 * j, 4);
      assert Pow2(4) == 16;
      adds := Select(prec[..], j, bits, adds0);
      assert RowDone(g, nums, prec[..], j);
      AddEntry(g, nums, gnb, b, j, bits);
      r := AddGe(g, r0, adds);
    }

    /** `secp256k1_ecmult_gen`: r = gn * G. */
    method Gen(gn: Scalar) returns (r: P)
      requires Valid()
      ensures r == Mul(g, gn, g.gen)
    {
      r := initial;
      var gnb: nat := ScalarAdd(gn, blind);
      ghost var b: int := blind;
      var adds := g.zero;
      Zero(g, r);
      assert Low(gnb, 4 * 0) == 0 && BlindSum(0) == 0;
      for j := 0 to ROWS
        invariant r == g.add(Mul(g, Low(gnb, 4 * j) - b, g.gen), Mul(g, BlindSum(j), nums))
      {
        r, adds := AddRowEntry(gnb, b, j, r, adds);
      }
      Unblind(g, gn, blind, nums);
    }

    /** `secp256k1_ecmult_gen_blind`. `b` is the nonzero scalar that the random
        generator yields; without a seed the state is reset first. */
    method Blind(seeded: bool, b: Scalar)
      requires b != 0 && (if seeded then Valid() else Built())
      modifies this`blind, this`initial
      ensures Valid() && blind == Negate(b)
    {
      if !seeded {
        initial := g.neg(g.gen);
        blind := 1;
        MulSmall(g, g.gen);
      }
      var gb := Gen(b);
      blind := Negate(b);
      initial := gb;
      NegatedTwice(g, b);
    }

    /** `secp256k1_ecmult_gen_context_build`. */
    method Build(nums: P, b: Scalar)
      requires nums == this.nums && Laws(g) && Suitable(g, nums) && b != 0
      requires prec == null || Valid()
      modifies this
      ensures Valid() && (old(prec) == null || prec == old(prec))
      ensures old(prec) != null ==> blind == old(blind)
    {
      if prec != null {
        return;
      }
      prec := ComputeComb(g, nums);
      Blind(false, b);
    }
  }

  lemma NegatedTwice<P(!new)>(g: Group<P>, b: Scalar)
    requires Laws(g)
    ensures Mul(g, -(Negate(b) as int), g.gen) == Mul(g, b, g.gen)
  {
    CongruentMod(-(Negate(b) as int), b);
    MulCongruent(g, -(Negate(b) as int), b, g.gen);
  }

  /** A step in the life of a context. */
  datatype Step = Build(b: Scalar) | Blind(seeded: bool, b: Scalar)

  /** Whatever builds and blindings a context has been through, it multiplies. */
  method AfterAnyHistory<P(==, !new)>(g: Group<P>, nums: P, b: Scalar, steps: seq<Step>, gn: Scalar)
      returns (r: P)
    requires Laws(g) && Suitable(g, nums) && b != 0 && forall s :: s in steps ==> s.b != 0
    ensures r == Mul(g, gn, g.gen)
  {
    var ctx := new GenContext(g, nums);
    ctx.Build(nums, b);
    for i := 0 to |steps|
      invariant ctx.Valid() && ctx.g == g && ctx.nums == nums
    {
      assert steps[i] in steps;
      match steps[i]
      case Build(b') => ctx.Build(nums, b');
      case Blind(seeded, b') => ctx.Blind(seeded, b');
    }
    r := ctx.Gen(gn);
  }

  /** All bits are read, the row blinds cancel and so does the blinding scalar. */
  lemma Unblind<P(!new)>(g: Group<P>, gn: Scalar, blind: Scalar, nums: P)
    requires Laws(g)
    ensures g.add(Mul(g, Low(ScalarAdd(gn, blind), 4 * ROWS) - blind, g.gen), Mul(g, BlindSum(ROWS), nums))
         == Mul(g, gn, g.gen)
  {
    var gnb: int := ScalarAdd(gn, blind);
    assert Low(gnb, 4 * ROWS) == gnb by {
      Pow2Values();
      LowSmall(gnb, 4 * ROWS);
    }
    Zero(g, Mul(g, gnb - blind, g.gen));
    assert BlindSum(ROWS) == 0;
    CongruentMod(gnb - blind, gn);
    MulCongruent(g, gnb - blind, gn, g.gen);
  }
}
