/**
 Interleaved multi-scalar multiplication, `secp256k1_ecmult_strauss_wnaf`.
 */
module Strauss {
  import opened Arith
  import opened Digits
  import opened Scalars
  import opened CurveGroup
  import opened OddMultiples
  import opened Wrappers
  import SlidingWnaf

  const WINDOW_A: nat := 5
  const WINDOW_G: nat := 16
  const TABLE_A: nat := 8

  // ---- evaluation of many digit strings at once ----

  /** Digit strings of one length, the one at j in width-w(j) form and zero from position top on. */
  ghost predicate DigitRows(ds: seq<seq<int>>, top: nat) {
    && top <= 256
    && (forall j :: 0 <= j < |ds| ==> |ds[j]| == 256)
    && (forall j, i :: 0 <= j < |ds| && top <= i < 256 ==> ds[j][i] == 0)
  }

  /** The values of the digits from position i up: for the rows before `np` from
      position i, for the others from position i + 1 and doubled. */
  ghost function Tops(ds: seq<seq<int>>, i: nat, np: nat): (r: seq<int>)
    requires forall j :: 0 <= j < |ds| ==> |ds[j]| == 256
    requires i < 256
    ensures |r| == |ds|
    ensures forall j :: 0 <= j < |ds| ==>
      r[j] == if j < np then Eval(ds[j][i..], 1) else 2 * Eval(ds[j][i + 1..], 1)
  {
    seq(|ds|, j requires 0 <= j < |ds| =>
      if j < np then Eval(ds[j][i..], 1) else 2 * Eval(ds[j][i + 1..], 1))
  }

  ghost function Values(ds: seq<seq<int>>, i: nat): (r: seq<int>)
    requires forall j :: 0 <= j < |ds| ==> |ds[j]| == 256
    requires i <= 256
    ensures |r| == |ds|
    ensures forall j :: 0 <= j < |ds| ==> r[j] == Eval(ds[j][i..], 1)
  {
    seq(|ds|, j requires 0 <= j < |ds| => Eval(ds[j][i..], 1))
  }

  lemma EvalTail(d: seq<int>, i: nat)
    requires i < |d|
    ensures Eval(d[i..], 1) == d[i] + 2 * Eval(d[i + 1..], 1)
  {
    assert d[i..][1..] == d[i + 1..];
    assert Pow2(1) == 2;
  }

  /** Nothing is left above the highest digit. */
  lemma TopValue<P(!new)>(g: Group<P>, ds: seq<seq<int>>, top: nat, ps: seq<P>)
    requires Laws(g) && |ds| == |ps| && DigitRows(ds, top)
    ensures Sum(g, Values(ds, top), ps) == g.zero
  {
    forall j | 0 <= j < |ds| ensures Values(ds, top)[j] == 0 {
      EvalPadded([], ds[j][top..], 1);
    }
    SumZero(g, Values(ds, top), ps);
  }

  /** Doubling the accumulator moves every row up one position. */
  lemma Doubled<P(!new)>(g: Group<P>, ds: seq<seq<int>>, i: nat, ps: seq<P>)
    requires Laws(g) && |ds| == |ps| && i < 256
    requires forall j :: 0 <= j < |ds| ==> |ds[j]| == 256
    ensures var r := Sum(g, Values(ds, i + 1), ps); Sum(g, Tops(ds, i, 0), ps) == g.add(r, r)
  {
    SumScale(g, 2, Values(ds, i + 1), Tops(ds, i, 0), ps);
    MulSmall(g, Sum(g, Values(ds, i + 1), ps));
  }

  /** Adding a digit's multiple of its point takes that row's digit in. */
  lemma DigitAdded<P(!new)>(g: Group<P>, ds: seq<seq<int>>, i: nat, np: nat, ps: seq<P>)
    requires Laws(g) && |ds| == |ps| && i < 256 && np < |ds|
    requires forall j :: 0 <= j < |ds| ==> |ds[j]| == 256
    ensures Sum(g, Tops(ds, i, np + 1), ps)
         == g.add(Sum(g, Tops(ds, i, np), ps), Mul(g, ds[np][i], ps[np]))
    ensures ds[np][i] == 0 ==> Sum(g, Tops(ds, i, np + 1), ps) == Sum(g, Tops(ds, i, np), ps)
  {
    var t := Tops(ds, i, np);
    EvalTail(ds[np], i);
    assert Tops(ds, i, np + 1) == t[np := t[np] + ds[np][i]];
    SumUpdate(g, t, ps, np, ds[np][i]);
    Zero(g, Sum(g, t, ps));
  }

  lemma AllAdded(ds: seq<seq<int>>, i: nat)
    requires i < 256 && forall j :: 0 <= j < |ds| ==> |ds[j]| == 256
    ensures Tops(ds, i, |ds|) == Values(ds, i)
  {
  }

  // ---- the digits of one scalar ----

  /** struct secp256k1_strauss_point_state. */
  datatype PointState = PointState(wnafNa: seq<int>, bitsNa: nat, inputPos: nat)

  /** A row of digits that fits the tables of window w and is zero from `bits` on. */
  ghost predicate Row(d: seq<int>, w: nat, bits: nat)
    requires w >= 2
  {
    && |d| == 256 && bits <= 256
    && (forall i :: 0 <= i < 256 && d[i] != 0 ==> Odd(d[i]) && Abs(d[i]) < Pow2(w - 1))
    && (forall i :: bits <= i < 256 ==> d[i] == 0)
  }

  method RecodeRow(s: Scalar, w: nat) returns (d: seq<int>, bits: nat)
    requires 2 <= w <= 31
    ensures Row(d, w, bits) && Eval(d, 1) == Signed(s)
  {
    var wnaf := new int[256];
    bits := SlidingWnaf.Recode(wnaf, 256, s, w);
    assert wnaf[..256] == wnaf[..];
    assert Abs(Signed(s)) < Pow2(255) by { TopBit(s); }
    d := wnaf[..];
  }

  /** Recoding to the signed representative does not change the multiple. */
  lemma SignedMultiple<P(!new)>(g: Group<P>, s: Scalar, p: P)
    requires Laws(g)
    ensures Mul(g, Signed(s), p) == Mul(g, s, p)
  {
    CongruentMod(Signed(s), s);
    MulCongruent(g, Signed(s), s, p);
  }

  // ---- the inputs that are kept ----

  ghost function Rows(ps: seq<PointState>): (r: seq<seq<int>>)
    ensures |r| == |ps| && forall j :: 0 <= j < |ps| ==> r[j] == ps[j].wnafNa
  {
    seq(|ps|, j requires 0 <= j < |ps| => ps[j].wnafNa)
  }

  ghost function Kept<P(!new)>(ps: seq<PointState>, a: seq<P>): (r: seq<P>)
    requires forall j :: 0 <= j < |ps| ==> ps[j].inputPos < |a|
    ensures |r| == |ps| && forall j :: 0 <= j < |ps| ==> r[j] == a[ps[j].inputPos]
  {
    seq(|ps|, j requires 0 <= j < |ps| => a[ps[j].inputPos])
  }

  ghost predicate Prepared(ps: seq<PointState>, num: nat, bits: nat) {
    forall j :: 0 <= j < |ps| ==>
      ps[j].inputPos < num && Row(ps[j].wnafNa, WINDOW_A, ps[j].bitsNa) && ps[j].bitsNa <= bits
  }

  /** The digit rows kept so far stand for the first np inputs. */
  ghost predicate Covers<P(!new)>(g: Group<P>, ps: seq<PointState>, a: seq<P>, na: seq<Scalar>, np: nat, bits: nat)
    requires np <= |a| == |na|
  {
    && Prepared(ps, np, bits)
    && Sum(g, Values(Rows(ps), 0), Kept(ps, a)) == Sum(g, na[..np], a[..np])
  }

  lemma Skip<P(!new)>(g: Group<P>, ps: seq<PointState>, a: seq<P>, na: seq<Scalar>, np: nat, bits: nat)
    requires Laws(g) && np < |a| == |na| && Covers(g, ps, a, na, np, bits)
    requires na[np] == 0 || a[np] == g.zero
    ensures Covers(g, ps, a, na, np + 1, bits)
  {
    assert a[..np + 1] == a[..np] + [a[np]] && na[..np + 1] == na[..np] + [na[np]];
    SumAppend(g, na[..np], a[..np], na[np], a[np]);
    MulZero(g, na[np]);
    Zero(g, Sum(g, na[..np], a[..np]));
  }

  lemma RowAppended(ps: seq<PointState>, st: PointState)
    requires |st.wnafNa| == 256 && forall j :: 0 <= j < |ps| ==> |ps[j].wnafNa| == 256
    ensures Values(Rows(ps + [st]), 0) == Values(Rows(ps), 0) + [Eval(st.wnafNa, 1)]
  {
    assert st.wnafNa[0..] == st.wnafNa;
    assert Rows(ps + [st]) == Rows(ps) + [st.wnafNa];
  }

  lemma KeptAppended<P(!new)>(ps: seq<PointState>, st: PointState, a: seq<P>)
    requires forall j :: 0 <= j < |ps| ==> ps[j].inputPos < |a|
    requires st.inputPos < |a|
    ensures Kept(ps + [st], a) == Kept(ps, a) + [a[st.inputPos]]
  {
  }

  lemma PreparedAppended(ps: seq<PointState>, st: PointState, np: nat, bits: nat, bits': nat)
    requires Prepared(ps, np, bits) && st.inputPos == np && Row(st.wnafNa, WINDOW_A, st.bitsNa)
    requires bits' == if st.bitsNa > bits then st.bitsNa else bits
    ensures Prepared(ps + [st], np + 1, bits')
  {
  }

  lemma SumAppended<P(!new)>(g: Group<P>, rows: seq<int>, pts: seq<P>, a: seq<P>, na: seq<Scalar>, np: nat)
    requires Laws(g) && np < |a| == |na| && |rows| == |pts| && Sum(g, rows, pts) == Sum(g, na[..np], a[..np])
    ensures Sum(g, rows + [Signed(na[np])], pts + [a[np]]) == Sum(g, na[..np + 1], a[..np + 1])
  {
    assert a[..np + 1] == a[..np] + [a[np]] && na[..np + 1] == na[..np] + [na[np]];
    SumAppend(g, na[..np], a[..np], na[np], a[np]);
    SignedMultiple(g, na[np], a[np]);
    SumAppend(g, rows, pts, Signed(na[np]), a[np]);
  }

  lemma Keep<P(!new)>(g: Group<P>, ps: seq<PointState>, a: seq<P>, na: seq<Scalar>, np: nat, bits: nat,
                      st: PointState, bits': nat)
    requires Laws(g) && np < |a| == |na| && Covers(g, ps, a, na, np, bits)
    requires st.inputPos == np && Row(st.wnafNa, WINDOW_A, st.bitsNa) && Eval(st.wnafNa, 1) == Signed(na[np])
    requires bits' == if st.bitsNa > bits then st.bitsNa else bits
    ensures Covers(g, ps + [st], a, na, np + 1, bits')
  {
    PreparedAppended(ps, st, np, bits, bits');
    RowAppended(ps, st);
    KeptAppended(ps, st, a);
    SumAppended(g, Values(Rows(ps), 0), Kept(ps, a), a, na, np);
  }

  /** Takes in input np as entry `no`. */
  method Append<P(==, !new)>(g: Group<P>, ps: array<PointState>, no: nat, a: seq<P>, na: seq<Scalar>, np: nat,
                             bits0: nat, ghost kept0: seq<PointState>) returns (bits: nat, ghost kept: seq<PointState>)
    requires Laws(g) && np < |a| == |na| && no < ps.Length && bits0 <= 256
    requires kept0 == ps[..no] && Covers(g, kept0, a, na, np, bits0)
    modifies ps
    ensures bits <= 256 && kept == ps[..no + 1] && Covers(g, kept, a, na, np + 1, bits)
  {
    var d, b := RecodeRow(na[np], WINDOW_A);
    var st := PointState(d, b, np);
    ps[no] := st;
    bits := if b > bits0 then b else bits0;
    Keep(g, kept0, a, na, np, bits0, st, bits);
    kept := kept0 + [st];
  }

  /** The first loop: recodes every scalar that contributes. */
  method Prepare<P(==, !new)>(g: Group<P>, ps: array<PointState>, a: seq<P>, na: seq<Scalar>)
      returns (no: nat, bits: nat)
    requires Laws(g) && |a| == |na| <= ps.Length
    modifies ps
    ensures no <= |a| && bits <= 256 && Covers(g, ps[..no], a, na, |a|, bits)
  {
    no, bits := 0, 0;
    ghost var kept := [];
    for np := 0 to |a|
      invariant no <= np && bits <= 256 && kept == ps[..no]
      invariant Covers(g, kept, a, na, np, bits)
    {
      if na[np] == 0 || a[np] == g.zero {
        Skip(g, kept, a, na, np, bits);
      } else {
        bits, kept := Append(g, ps, no, a, na, np, bits, kept);
        no := no + 1;
      }
    }
  }

  // ---- tables ----

  /** Entry j's table of odd multiples, `state->pre_a + j * ECMULT_TABLE_SIZE(WINDOW_A)`. */
  function TableOf<P>(preA: seq<P>, j: nat): (t: seq<P>)
    requires TABLE_A * (j + 1) <= |preA|
    ensures |t| == TABLE_A
  {
    preA[TABLE_A * j..TABLE_A * (j + 1)]
  }

  ghost predicate Tables<P(!new)>(g: Group<P>, preA: seq<P>, pts: seq<P>) {
    && TABLE_A * |pts| <= |preA|
    && forall j :: 0 <= j < |pts| ==> IsTable(g, TableOf(preA, j), pts[j])
  }

  /** Calculates the odd multiples of every point that is kept. */
  method BuildTables<P(==, !new)>(g: Group<P>, preA: array<P>, ps: seq<PointState>, a: seq<P>)
    requires Laws(g) && TABLE_A * |ps| <= preA.Length
    requires forall j :: 0 <= j < |ps| ==> ps[j].inputPos < |a|
    modifies preA
    ensures Tables(g, preA[..], Kept(ps, a))
  {
    ghost var kept := Kept(ps, a);
    for np := 0 to |ps|
      invariant Tables(g, preA[..], kept[..np])
    {
      ghost var pre0 := preA[..];
      Build(g, preA, TABLE_A * np, TABLE_A, a[ps[np].inputPos]);
      forall j | 0 <= j < np + 1 ensures IsTable(g, TableOf(preA[..], j), kept[j]) {
        if j < np {
          assert preA[..TABLE_A * np] == pre0[..TABLE_A * np];
          assert TableOf(preA[..], j) == TableOf(pre0, j);
          assert kept[..np][j] == kept[j];
        } else {
          assert TableOf(preA[..], j) == preA[TABLE_A * np..TABLE_A * np + TABLE_A];
        }
      }
    }
    assert kept[..|ps|] == kept;
  }

  // ---- the main loop ----

  /** The digit rows with their points, and G's row last. */
  ghost predicate Ready<P(!new)>(g: Group<P>, ps: seq<PointState>, wnafNg: seq<int>, bitsNg: nat, bits: nat,
                                 preA: seq<P>, preG: seq<P>, pts: seq<P>)
  {
    && bits <= 256 && bitsNg <= bits
    && (forall j :: 0 <= j < |ps| ==> Row(ps[j].wnafNa, WINDOW_A, ps[j].bitsNa) && ps[j].bitsNa <= bits)
    && Row(wnafNg, WINDOW_G, bitsNg)
    && |pts| == |ps| + 1 && Tables(g, preA, pts[..|ps|])
    && |preG| == TableSize(WINDOW_G) && IsTable(g, preG, pts[|ps|])
  }

  ghost function AllRows(ps: seq<PointState>, wnafNg: seq<int>): (r: seq<seq<int>>)
    ensures |r| == |ps| + 1
    ensures forall j :: 0 <= j < |ps| ==> r[j] == ps[j].wnafNa
    ensures r[|ps|] == wnafNg
  {
    Rows(ps) + [wnafNg]
  }

  lemma PointDigit<P(!new)>(g: Group<P>, ps: seq<PointState>, wnafNg: seq<int>, bitsNg: nat, bits: nat,
                            preA: seq<P>, preG: seq<P>, pts: seq<P>, i: nat, np: nat)
    requires Laws(g) && Ready(g, ps, wnafNg, bitsNg, bits, preA, preG, pts)
    requires i < 256 && np < |ps|
    ensures var ds, n := AllRows(ps, wnafNg), ps[np].wnafNa[i];
            && (n != 0 ==> Odd(n) && Abs(n) < Pow2(WINDOW_A - 1) && i < ps[np].bitsNa)
            && Sum(g, Tops(ds, i, np + 1), pts)
            == if n == 0 then Sum(g, Tops(ds, i, np), pts)
               else g.add(Sum(g, Tops(ds, i, np), pts), Get(g, TableOf(preA, np), n, WINDOW_A))
  {
    var n := ps[np].wnafNa[i];
    DigitAdded(g, AllRows(ps, wnafNg), i, np, pts);
    assert pts[..|ps|][np] == pts[np];
    if n != 0 {
      GetIsMultiple(g, TableOf(preA, np), n, WINDOW_A, pts[np]);
    }
  }

  lemma GeneratorDigit<P(!new)>(g: Group<P>, ps: seq<PointState>, wnafNg: seq<int>, bitsNg: nat, bits: nat,
                                preA: seq<P>, preG: seq<P>, pts: seq<P>, i: nat)
    requires Laws(g) && Ready(g, ps, wnafNg, bitsNg, bits, preA, preG, pts) && i < 256
    ensures var ds, n := AllRows(ps, wnafNg), wnafNg[i];
            && (n != 0 ==> Odd(n) && Abs(n) < Pow2(WINDOW_G - 1) && i < bitsNg)
            && Sum(g, Values(ds, i), pts)
            == if n == 0 then Sum(g, Tops(ds, i, |ps|), pts)
               else g.add(Sum(g, Tops(ds, i, |ps|), pts), Get(g, preG, n, WINDOW_G))
  {
    var ds, n := AllRows(ps, wnafNg), wnafNg[i];
    DigitAdded(g, ds, i, |ps|, pts);
    AllAdded(ds, i);
    if n != 0 {
      GetIsMultiple(g, preG, n, WINDOW_G, pts[|ps|]);
    }
  }

  /** Adds position i's digit of one point. */
  method AddDigit<P(==, !new)>(g: Group<P>, r0: P, ps: seq<PointState>, preA: seq<P>, i: nat, np: nat,
                               ghost wnafNg: seq<int>, ghost bitsNg: nat, ghost bits: nat,
                               ghost preG: seq<P>, ghost pts: seq<P>) returns (r: P)
    requires Laws(g) && Ready(g, ps, wnafNg, bitsNg, bits, preA, preG, pts) && i < 256 && np < |ps|
    requires r0 == Sum(g, Tops(AllRows(ps, wnafNg), i, np), pts)
    ensures r == Sum(g, Tops(AllRows(ps, wnafNg), i, np + 1), pts)
  {
    r := r0;
    PointDigit(g, ps, wnafNg, bitsNg, bits, preA, preG, pts, i, np);
    if i < ps[np].bitsNa && ps[np].wnafNa[i] != 0 {
      r := g.add(r, Get(g, TableOf(preA, np), ps[np].wnafNa[i], WINDOW_A));
    }
  }

  /** Adds position i's digits of all points. */
  method AddDigits<P(==, !new)>(g: Group<P>, r0: P, ps: seq<PointState>, preA: seq<P>, i: nat,
                                ghost wnafNg: seq<int>, ghost bitsNg: nat, ghost bits: nat,
                                ghost preG: seq<P>, ghost pts: seq<P>) returns (r: P)
    requires Laws(g) && Ready(g, ps, wnafNg, bitsNg, bits, preA, preG, pts) && i < 256
    requires r0 == Sum(g, Tops(AllRows(ps, wnafNg), i, 0), pts)
    ensures r == Sum(g, Tops(AllRows(ps, wnafNg), i, |ps|), pts)
  {
    r := r0;
    for np := 0 to |ps|
      invariant r == Sum(g, Tops(AllRows(ps, wnafNg), i, np), pts)
    {
      r := AddDigit(g, r, ps, preA, i, np, wnafNg, bitsNg, bits, preG, pts);
    }
  }

  /** Simultaneous Horner evaluation of all digit rows. */
  method Interleave<P(==, !new)>(g: Group<P>, ps: seq<PointState>, wnafNg: seq<int>, bitsNg: nat, bits: nat,
                                 preA: seq<P>, preG: seq<P>, ghost pts: seq<P>) returns (r: P)
    requires Laws(g) && Ready(g, ps, wnafNg, bitsNg, bits, preA, preG, pts)
    ensures r == Sum(g, Values(AllRows(ps, wnafNg), 0), pts)
  {
    ghost var ds := AllRows(ps, wnafNg);
    r := g.zero;
    TopValue(g, ds, bits, pts);
    for i := bits downto 0
      invariant r == Sum(g, Values(ds, i), pts)
    {
      Doubled(g, ds, i, pts);
      r := g.add(r, r);
      r := AddDigits(g, r, ps, preA, i, wnafNg, bitsNg, bits, preG, pts);
      GeneratorDigit(g, ps, wnafNg, bitsNg, bits, preA, preG, pts, i);
      if i < bitsNg && wnafNg[i] != 0 {
        r := g.add(r, Get(g, preG, wnafNg[i], WINDOW_G));
      }
    }
  }

  // ---- the whole multiplication ----

  /** `ctx->pre_g`: the odd multiples of the generator. */
  ghost predicate GeneratorTable<P(!new)>(g: Group<P>, preG: seq<P>) {
    |preG| == TableSize(WINDOW_G) && IsTable(g, preG, g.gen)
  }

  /** `secp256k1_ecmult_context_build`. */
  method ContextBuild<P(==, !new)>(g: Group<P>) returns (preG: array<P>)
    requires Laws(g)
    ensures fresh(preG) && GeneratorTable(g, preG[..])
  {
    var n := TableSize(WINDOW_G);
    preG := new P[n](_ => g.zero);
    Build(g, preG, 0, n, g.gen);
    assert preG[..] == preG[0..0 + n];
  }

  /** The multiple of the generator that a possibly absent scalar stands for. */
  ghost function GeneratorPart<P(!new)>(g: Group<P>, ng: Option<Scalar>): P {
    match ng
    case None => g.zero
    case Some(s) => Mul(g, s, g.gen)
  }

  method RecodeGenerator(ng: Option<Scalar>) returns (wnafNg: seq<int>, bitsNg: nat)
    ensures Row(wnafNg, WINDOW_G, bitsNg)
    ensures Eval(wnafNg, 1) == if ng.Some? then Signed(ng.value) else 0
  {
    if ng.Some? {
      wnafNg, bitsNg := RecodeRow(ng.value, WINDOW_G);
    } else {
      wnafNg, bitsNg := seq(256, _ => 0), 0;
      EvalPadded([], wnafNg, 1);
    }
  }

  lemma Total<P(!new)>(g: Group<P>, ps: seq<PointState>, wnafNg: seq<int>, a: seq<P>, na: seq<Scalar>,
                       bits: nat, ng: Option<Scalar>)
    requires Laws(g) && |a| == |na| && Covers(g, ps, a, na, |a|, bits)
    requires |wnafNg| == 256 && Eval(wnafNg, 1) == if ng.Some? then Signed(ng.value) else 0
    ensures Sum(g, Values(AllRows(ps, wnafNg), 0), Kept(ps, a) + [g.gen])
         == g.add(Sum(g, na, a), GeneratorPart(g, ng))
  {
    assert wnafNg[0..] == wnafNg && na[..|a|] == na && a[..|a|] == a;
    var v := Eval(wnafNg, 1);
    assert Values(AllRows(ps, wnafNg), 0) == Values(Rows(ps), 0) + [v];
    SumAppend(g, Values(Rows(ps), 0), Kept(ps, a), v, g.gen);
    if ng.Some? {
      SignedMultiple(g, ng.value, g.gen);
    }
  }

  /** r = sum of na[i] * a[i], plus ng times the generator. */
  method Multiply<P(==, !new)>(g: Group<P>, preG: seq<P>, ps: array<PointState>, preA: array<P>,
                               a: seq<P>, na: seq<Scalar>, ng: Option<Scalar>) returns (r: P)
    requires Laws(g) && GeneratorTable(g, preG)
    requires |a| == |na| <= ps.Length && TABLE_A * |a| <= preA.Length
    modifies ps, preA
    ensures r == g.add(Sum(g, na, a), GeneratorPart(g, ng))
  {
    var no, bits := Prepare(g, ps, a, na);
    var kept := ps[..no];
    BuildTables(g, preA, kept, a);
    var wnafNg, bitsNg := RecodeGenerator(ng);
    bits := if bitsNg > bits then bitsNg else bits;
    ghost var pts := Kept(kept, a) + [g.gen];
    assert pts[..no] == Kept(kept, a);
    r := Interleave(g, kept, wnafNg, bitsNg, bits, preA[..], preG, pts);
    Total(g, kept, wnafNg, a, na, bits, ng);
  }

  /** `secp256k1_ecmult`: na * a + ng * G. */
  method Ecmult<P(==, !new)>(g: Group<P>, preG: seq<P>, a: P, na: Scalar, ng: Option<Scalar>) returns (r: P)
    requires Laws(g) && GeneratorTable(g, preG)
    ensures r == g.add(Mul(g, na, a), GeneratorPart(g, ng))
  {
    var ps := new PointState[1](_ => PointState([], 0, 0));
    var preA := new P[TABLE_A](_ => g.zero);
    r := Multiply(g, preG, ps, preA, [a], [na], ng);
    SumAppend(g, [], [], na, a);
    assert [] + [na] == [na] && [] + [a] == [a];
    Zero(g, Mul(g, na, a));
  }
}
