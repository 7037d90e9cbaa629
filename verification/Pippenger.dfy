/**
 Bucket-based multi-scalar multiplication, `secp256k1_ecmult_pippenger_wnaf`.
 */
module Pippenger {
  import opened Arith
  import opened Digits
  import opened Scalars
  import opened CurveGroup
  import FixedWnaf

  // ---- the weighted sum of the buckets ----

  ghost function Odds(n: nat): (r: seq<int>)
    ensures |r| == n && forall k :: 0 <= k < n ==> r[k] == 2 * k + 1
  {
    seq(n, k => 2 * k + 1)
  }

  /** 1 * b[0] + 3 * b[1] + 5 * b[2] + ... */
  ghost function Weighted<P(!new)>(g: Group<P>, b: seq<P>): P {
    Sum(g, Odds(|b|), b)
  }

  /** b[j] + b[j+1] + ..., in the order in which the running sum adds them. */
  ghost function Tail<P(!new)>(g: Group<P>, b: seq<P>, j: nat): P
    decreases |b| - j
  {
    if j >= |b| then g.zero else g.add(Tail(g, b, j + 1), b[j])
  }

  /** The sum of all running sums down to index j. */
  ghost function Stairs<P(!new)>(g: Group<P>, b: seq<P>, j: nat): P
    decreases |b| - j
  {
    if j >= |b| then g.zero else g.add(Stairs(g, b, j + 1), Tail(g, b, j))
  }

  lemma {:induction false} TailAppend<P(!new)>(g: Group<P>, b: seq<P>, x: P, j: nat)
    requires Laws(g) && j <= |b|
    ensures Tail(g, b + [x], j) == g.add(Tail(g, b, j), x)
    decreases |b| - j
  {
    if j == |b| {
      assert Tail(g, b + [x], j) == g.add(Tail(g, b + [x], j + 1), x);
    } else {
      TailAppend(g, b, x, j + 1);
      var t := Tail(g, b, j + 1);
      Assoc(g, t, x, b[j]);
      Comm(g, x, b[j]);
      Assoc(g, t, b[j], x);
    }
  }

  lemma {:induction false} StairsAppend<P(!new)>(g: Group<P>, b: seq<P>, x: P, j: nat)
    requires Laws(g) && j <= |b|
    ensures Stairs(g, b + [x], j) == g.add(Stairs(g, b, j), Mul(g, |b| - j + 1, x))
    decreases |b| - j
  {
    TailAppend(g, b, x, j);
    if j == |b| {
      assert Stairs(g, b + [x], j) == g.add(Stairs(g, b + [x], j + 1), Tail(g, b + [x], j));
      MulSmall(g, x);
    } else {
      StairsAppend(g, b, x, j + 1);
      MulStep(g, |b| - j, x);
      Shuffle(g, Stairs(g, b, j + 1), Mul(g, |b| - j, x), Tail(g, b, j), x);
    }
  }

  lemma OneMoreStair<P(!new)>(g: Group<P>, s: P, t: P, n: nat, x: P)
    requires Laws(g)
    ensures g.add(g.add(Mul(g, 2, s), t), Mul(g, 2 * n + 1, x))
         == g.add(Mul(g, 2, g.add(s, Mul(g, n, x))), g.add(t, x))
  {
    MulDist(g, 2, s, Mul(g, n, x));
    MulMul(g, 2, n, x);
    MulStep(g, 2 * n, x);
    Shuffle(g, Mul(g, 2, s), Mul(g, 2 * n, x), t, x);
  }

  /** The suffix sums give the weighted sum: twice the stairs over the buckets
      above 0, plus one running sum over all buckets. */
  lemma {:induction false} SuffixSums<P(!new)>(g: Group<P>, b: seq<P>)
    requires Laws(g)
    ensures Weighted(g, b) == g.add(Mul(g, 2, Stairs(g, b, 1)), Tail(g, b, 0))
    decreases |b|
  {
    if b == [] {
      MulZero(g, 2);
      Zero(g, g.zero);
    } else {
      var n := |b| - 1;
      var c, x := b[..n], b[n];
      assert b == c + [x] && Odds(n + 1) == Odds(n) + [2 * n + 1];
      SumAppend(g, Odds(n), c, 2 * n + 1, x);
      TailAppend(g, c, x, 0);
      SuffixSums(g, c);
      StairsFromOne(g, c, x);
      OneMoreStair(g, Stairs(g, c, 1), Tail(g, c, 0), n, x);
    }
  }

  lemma StairsFromOne<P(!new)>(g: Group<P>, c: seq<P>, x: P)
    requires Laws(g)
    ensures Stairs(g, c + [x], 1) == g.add(Stairs(g, c, 1), Mul(g, |c|, x))
  {
    if c == [] {
      Zero(g, g.zero);
    } else {
      StairsAppend(g, c, x, 1);
    }
  }

  lemma BucketAdd<P(!new)>(g: Group<P>, b: seq<P>, idx: nat, q: P)
    requires Laws(g) && idx < |b|
    ensures Weighted(g, b[idx := g.add(b[idx], q)]) == g.add(Weighted(g, b), Mul(g, 2 * idx + 1, q))
  {
    SumPointUpdate(g, Odds(|b|), b, idx, q);
  }

  lemma EmptyBuckets<P(!new)>(g: Group<P>, b: seq<P>)
    requires Laws(g) && forall k :: 0 <= k < |b| ==> b[k] == g.zero
    ensures Weighted(g, b) == g.zero
    decreases |b|
  {
    if b != [] {
      var n := |b| - 1;
      assert b == b[..n] + [g.zero] && Odds(n + 1) == Odds(n) + [2 * n + 1];
      EmptyBuckets(g, b[..n]);
      SumAppend(g, Odds(n), b[..n], 2 * n + 1, g.zero);
      MulZero(g, 2 * n + 1);
      Zero(g, g.zero);
    }
  }

  // ---- the inputs that are kept ----

  /** struct secp256k1_pippenger_point_state. */
  datatype PointState = PointState(skewNa: int, inputPos: nat)

  /** The number of words of one scalar, WNAF_SIZE(bucket_window + 1). */
  function Words(w: nat): nat
    requires w > 0
  {
    FixedWnaf.SizeBits(FixedWnaf.WNAF_BITS, w)
  }

  /** Row j of the flat digit buffer, `&wnaf_na[j * n_wnaf]`. */
  function RowOf(wnaf: seq<int>, n: nat, j: nat): (row: seq<int>)
    requires Offset(n, j + 1) <= |wnaf|
    ensures |row| == n
  {
    wnaf[Offset(n, j)..Offset(n, j + 1)]
  }

  ghost predicate GoodRow(row: seq<int>, w: nat, skew: int) {
    0 <= skew <= 1 && forall i :: 0 <= i < |row| ==> FixedWnaf.SmallDigit(row[i], w)
  }

  ghost function Kept<P(!new)>(ps: seq<PointState>, pt: seq<P>): (r: seq<P>)
    requires forall j :: 0 <= j < |ps| ==> ps[j].inputPos < |pt|
    ensures |r| == |ps| && forall j :: 0 <= j < |ps| ==> r[j] == pt[ps[j].inputPos]
  {
    seq(|ps|, j requires 0 <= j < |ps| => pt[ps[j].inputPos])
  }

  /** What row j still contributes from window i up; the skew is settled at window 0. */
  ghost function Tops(ps: seq<PointState>, rows: seq<seq<int>>, w: nat, i: nat): (r: seq<int>)
    requires |rows| == |ps| && forall j :: 0 <= j < |rows| ==> i <= |rows[j]|
    ensures |r| == |ps|
    ensures forall j :: 0 <= j < |ps| ==>
      r[j] == Eval(rows[j][i..], w) - if i == 0 then ps[j].skewNa else 0
  {
    seq(|ps|, j requires 0 <= j < |ps| => Eval(rows[j][i..], w) - if i == 0 then ps[j].skewNa else 0)
  }

  ghost predicate Covers<P(!new)>(g: Group<P>, ps: seq<PointState>, rows: seq<seq<int>>, n: nat, w: nat,
                                  pt: seq<P>, sc: seq<Scalar>, np: nat)
    requires np <= |pt| == |sc|
  {
    && |rows| == |ps|
    && (forall j :: 0 <= j < |ps| ==>
          ps[j].inputPos < np && |rows[j]| == n && GoodRow(rows[j], w, ps[j].skewNa))
    && SameSum(g, ps, rows, w, pt, sc, np)
  }

  ghost predicate SameSum<P(!new)>(g: Group<P>, ps: seq<PointState>, rows: seq<seq<int>>, w: nat,
                                   pt: seq<P>, sc: seq<Scalar>, np: nat)
    requires np <= |pt| == |sc| && |rows| == |ps| && forall j :: 0 <= j < |ps| ==> ps[j].inputPos < |pt|
  {
    Sum(g, Tops(ps, rows, w, 0), Kept(ps, pt)) == Sum(g, sc[..np], pt[..np])
  }

  lemma Skip<P(!new)>(g: Group<P>, ps: seq<PointState>, rows: seq<seq<int>>, n: nat, w: nat,
                      pt: seq<P>, sc: seq<Scalar>, np: nat)
    requires Laws(g) && np < |pt| == |sc| && Covers(g, ps, rows, n, w, pt, sc, np)
    requires sc[np] == 0 || pt[np] == g.zero
    ensures Covers(g, ps, rows, n, w, pt, sc, np + 1)
  {
    assert pt[..np + 1] == pt[..np] + [pt[np]] && sc[..np + 1] == sc[..np] + [sc[np]];
    SumAppend(g, sc[..np], pt[..np], sc[np], pt[np]);
    MulZero(g, sc[np]);
    Zero(g, Sum(g, sc[..np], pt[..np]));
  }

  lemma TopAppended(ps: seq<PointState>, rows: seq<seq<int>>, w: nat, st: PointState, row: seq<int>)
    requires |rows| == |ps|
    ensures Tops(ps + [st], rows + [row], w, 0) == Tops(ps, rows, w, 0) + [Eval(row, w) - st.skewNa]
  {
    assert row[0..] == row;
  }

  lemma KeptAppended<P(!new)>(ps: seq<PointState>, st: PointState, pt: seq<P>)
    requires forall j :: 0 <= j < |ps| ==> ps[j].inputPos < |pt|
    requires st.inputPos < |pt|
    ensures Kept(ps + [st], pt) == Kept(ps, pt) + [pt[st.inputPos]]
  {
  }

  lemma SumAppended<P(!new)>(g: Group<P>, tops: seq<int>, pts: seq<P>, ks: seq<int>, ps: seq<P>, k: int, p: P)
    requires |tops| == |pts| && |ks| == |ps| && Sum(g, tops, pts) == Sum(g, ks, ps)
    ensures Sum(g, tops + [k], pts + [p]) == Sum(g, ks + [k], ps + [p])
  {
    SumAppend(g, tops, pts, k, p);
    SumAppend(g, ks, ps, k, p);
  }

  lemma Keep<P(!new)>(g: Group<P>, ps: seq<PointState>, rows: seq<seq<int>>, n: nat, w: nat,
                      pt: seq<P>, sc: seq<Scalar>, np: nat, st: PointState, row: seq<int>)
    requires Laws(g) && np < |pt| == |sc| && Covers(g, ps, rows, n, w, pt, sc, np)
    requires w > 0 && n == Words(w)
    requires st.inputPos == np && FixedWnaf.Recoding(row, sc[np], w, st.skewNa)
    ensures Covers(g, ps + [st], rows + [row], n, w, pt, sc, np + 1)
  {
    TopAppended(ps, rows, w, st, row);
    KeptAppended(ps, st, pt);
    assert pt[..np + 1] == pt[..np] + [pt[np]] && sc[..np + 1] == sc[..np] + [sc[np]];
    SumAppended(g, Tops(ps, rows, w, 0), Kept(ps, pt), sc[..np], pt[..np], sc[np], pt[np]);
  }

  ghost predicate RowAt(wnaf: seq<int>, n: nat, j: nat, row: seq<int>) {
    Offset(n, j + 1) <= |wnaf| && RowOf(wnaf, n, j) == row
  }

  /** The rows recorded so far lie one after the other in the buffer. */
  ghost predicate Laid(wnaf: seq<int>, n: nat, rows: seq<seq<int>>) {
    forall j :: 0 <= j < |rows| ==> RowAt(wnaf, n, j, rows[j])
  }

  lemma LaidAppend(wnaf: seq<int>, wnaf': seq<int>, n: nat, rows: seq<seq<int>>, row: seq<int>)
    requires Laid(wnaf, n, rows) && |wnaf'| == |wnaf| && Offset(n, |rows| + 1) <= |wnaf|
    requires wnaf'[..Offset(n, |rows|)] == wnaf[..Offset(n, |rows|)]
    requires row == RowOf(wnaf', n, |rows|)
    ensures Laid(wnaf', n, rows + [row])
  {
    var o := Offset(n, |rows|);
    forall j | 0 <= j < |rows| ensures RowAt(wnaf', n, j, rows[j]) {
      assert RowAt(wnaf, n, j, rows[j]);
      OffsetMono(n, j + 1, |rows|);
      OffsetMono(n, j, j + 1);
      SamePart(wnaf, wnaf', Offset(n, j), Offset(n, j + 1), o);
    }
  }

  lemma SamePart(s: seq<int>, t: seq<int>, i: nat, j: nat, o: nat)
    requires i <= j <= o <= |s| == |t| && s[..o] == t[..o]
    ensures s[i..j] == t[i..j]
  {
    assert s[i..j] == s[..o][i..j] && t[i..j] == t[..o][i..j];
  }

  lemma Record<P(!new)>(g: Group<P>, ps: seq<PointState>, rows: seq<seq<int>>, n: nat, w: nat,
                        pt: seq<P>, sc: seq<Scalar>, np: nat, st: PointState,
                        wnaf: seq<int>, wnaf': seq<int>, row: seq<int>)
    requires Laws(g) && np < |pt| == |sc| && Covers(g, ps, rows, n, w, pt, sc, np)
    requires w > 0 && n == Words(w) && st.inputPos == np
    requires Laid(wnaf, n, rows) && |wnaf'| == |wnaf| && Offset(n, |rows| + 1) <= |wnaf|
    requires wnaf'[..Offset(n, |rows|)] == wnaf[..Offset(n, |rows|)]
    requires row == RowOf(wnaf', n, |rows|) && FixedWnaf.Recoding(row, sc[np], w, st.skewNa)
    ensures Covers(g, ps + [st], rows + [row], n, w, pt, sc, np + 1)
    ensures Laid(wnaf', n, rows + [row])
  {
    LaidAppend(wnaf, wnaf', n, rows, row);
    Keep(g, ps, rows, n, w, pt, sc, np, st, row);
  }

  /** Recodes one scalar into the next free row. */
  method RecodeRow(wnafNa: array<int>, n: nat, w: nat, no: nat, s: Scalar, np: nat)
      returns (st: PointState, ghost row: seq<int>)
    requires 1 <= w <= 31 && n == Words(w) && Offset(n, no + 1) <= wnafNa.Length
    modifies wnafNa
    ensures st.inputPos == np
    ensures row == RowOf(wnafNa[..], n, no) && FixedWnaf.Recoding(row, s, w, st.skewNa)
    ensures wnafNa[..][..Offset(n, no)] == old(wnafNa[..][..Offset(n, no)])
  {
    ghost var before := wnafNa[..];
    var skew := FixedWnaf.Recode(wnafNa, Offset(n, no), s, w);
    st := PointState(skew, np);
    row := RowOf(wnafNa[..], n, no);
    assert row == wnafNa[Offset(n, no)..Offset(n, no) + n];
    assert wnafNa[..][..Offset(n, no)] == wnafNa[..Offset(n, no)];
    assert before[..Offset(n, no)] == old(wnafNa[..Offset(n, no)]);
  }

  /** Entries and rows for the first np inputs are in place. */
  ghost predicate Entered<P(!new)>(g: Group<P>, ps: seq<PointState>, wnaf: seq<int>, rows: seq<seq<int>>,
                                   n: nat, w: nat, pt: seq<P>, sc: seq<Scalar>, np: nat)
    requires np <= |pt| == |sc|
  {
    |rows| == |ps| <= np && Covers(g, ps, rows, n, w, pt, sc, np) && Laid(wnaf, n, rows)
  }

  lemma NothingEntered<P(!new)>(g: Group<P>, wnaf: seq<int>, n: nat, w: nat, pt: seq<P>, sc: seq<Scalar>)
    requires |pt| == |sc|
    ensures Holds(g, Inputs([], wnaf, []), n, w, pt, sc, 0)
  {
    Close(g, Inputs([], wnaf, []), n, w, pt, sc, 0);
  }

  /** What the buffers hold after the first np inputs. */
  datatype Inputs = Inputs(kept: seq<PointState>, wnaf: seq<int>, rows: seq<seq<int>>)

  // Always true, and the trigger of `Holds`: the loop passes the property on
  // unopened, and `Close` opens and closes it.
  ghost predicate Open(np: nat) { true }

  ghost predicate Holds<P(!new)>(g: Group<P>, st: Inputs, n: nat, w: nat, pt: seq<P>, sc: seq<Scalar>, np: nat)
    requires np <= |pt| == |sc|
  {
    forall k: nat {:trigger Open(k)} :: k == np ==> Entered(g, st.kept, st.wnaf, st.rows, n, w, pt, sc, np)
  }

  lemma Close<P(!new)>(g: Group<P>, st: Inputs, n: nat, w: nat, pt: seq<P>, sc: seq<Scalar>, np: nat)
    requires np <= |pt| == |sc|
    ensures Holds(g, st, n, w, pt, sc, np) <==> Entered(g, st.kept, st.wnaf, st.rows, n, w, pt, sc, np)
  {
    assert Open(np);
  }

  lemma SkipInput<P(!new)>(g: Group<P>, st: Inputs, n: nat, w: nat, pt: seq<P>, sc: seq<Scalar>, np: nat)
    requires Laws(g) && np < |pt| == |sc| && Holds(g, st, n, w, pt, sc, np)
    requires sc[np] == 0 || pt[np] == g.zero
    ensures Holds(g, st, n, w, pt, sc, np + 1)
  {
    Close(g, st, n, w, pt, sc, np);
    Skip(g, st.kept, st.rows, n, w, pt, sc, np);
    Close(g, st, n, w, pt, sc, np + 1);
  }

  lemma KeepInput<P(!new)>(g: Group<P>, st: Inputs, n: nat, w: nat, pt: seq<P>, sc: seq<Scalar>, np: nat,
                           p: PointState, wnaf: seq<int>, row: seq<int>)
    requires Laws(g) && np < |pt| == |sc| && Holds(g, st, n, w, pt, sc, np)
    requires w > 0 && n == Words(w) && p.inputPos == np
    requires |wnaf| == |st.wnaf| && Offset(n, |st.rows| + 1) <= |wnaf|
    requires wnaf[..Offset(n, |st.rows|)] == st.wnaf[..Offset(n, |st.rows|)]
    requires row == RowOf(wnaf, n, |st.rows|) && FixedWnaf.Recoding(row, sc[np], w, p.skewNa)
    ensures Holds(g, Inputs(st.kept + [p], wnaf, st.rows + [row]), n, w, pt, sc, np + 1)
  {
    Close(g, st, n, w, pt, sc, np);
    Record(g, st.kept, st.rows, n, w, pt, sc, np, p, st.wnaf, wnaf, row);
    Close(g, Inputs(st.kept + [p], wnaf, st.rows + [row]), n, w, pt, sc, np + 1);
  }

  /** Where entry `no` is written. */
  lemma NextRow<P(!new)>(g: Group<P>, st: Inputs, n: nat, w: nat, pt: seq<P>, sc: seq<Scalar>, np: nat)
    requires np < |pt| == |sc| && Holds(g, st, n, w, pt, sc, np)
    ensures |st.rows| == |st.kept| <= np && Offset(n, |st.kept| + 1) <= Offset(n, |pt|)
  {
    Close(g, st, n, w, pt, sc, np);
    OffsetMono(n, |st.kept| + 1, |pt|);
  }

  /** One input: recoded if it contributes. */
  method TakeInput<P(==, !new)>(g: Group<P>, ps: array<PointState>, wnafNa: array<int>, n: nat, w: nat,
                                pt: seq<P>, sc: seq<Scalar>, np: nat, no0: nat, ghost st0: Inputs)
      returns (no: nat, ghost st: Inputs)
    requires Laws(g) && 1 <= w <= 31 && np < |pt| == |sc| <= ps.Length && no0 <= ps.Length
    requires n == Words(w) && Offset(n, |pt|) <= wnafNa.Length
    requires st0.kept == ps[..no0] && st0.wnaf == wnafNa[..] && Holds(g, st0, n, w, pt, sc, np)
    modifies ps, wnafNa
    ensures no <= ps.Length && st.kept == ps[..no] && st.wnaf == wnafNa[..]
    ensures Holds(g, st, n, w, pt, sc, np + 1)
  {
    no, st := no0, st0;
    if sc[np] == 0 || pt[np] == g.zero {
      SkipInput(g, st, n, w, pt, sc, np);
    } else {
      NextRow(g, st, n, w, pt, sc, np);
      ghost var row;
      ps[no], row := RecodeRow(wnafNa, n, w, no, sc[np], np);
      KeepInput(g, st, n, w, pt, sc, np, ps[no], wnafNa[..], row);
      st := Inputs(st.kept + [ps[no]], wnafNa[..], st.rows + [row]);
      no := no + 1;
    }
  }

  /** The first loop: recodes every scalar that contributes. */
  method Prepare<P(==, !new)>(g: Group<P>, ps: array<PointState>, wnafNa: array<int>, n: nat, w: nat,
                              pt: seq<P>, sc: seq<Scalar>) returns (no: nat, ghost st: Inputs)
    requires Laws(g) && 1 <= w <= 31 && |pt| == |sc| <= ps.Length
    requires n == Words(w) && Offset(n, |pt|) <= wnafNa.Length
    modifies ps, wnafNa
    ensures no <= ps.Length && st.kept == ps[..no] && st.wnaf == wnafNa[..]
    ensures Holds(g, st, n, w, pt, sc, |pt|)
  {
    no, st := 0, Inputs([], wnafNa[..], []);
    NothingEntered(g, st.wnaf, n, w, pt, sc);
    for np := 0 to |pt|
      invariant no <= ps.Length && st.kept == ps[..no] && st.wnaf == wnafNa[..]
      invariant Holds(g, st, n, w, pt, sc, np)
    {
      no, st := TakeInput(g, ps, wnafNa, n, w, pt, sc, np, no, st);
    }
  }

  // ---- one window ----

  /** What row j puts into the buckets at window i. */
  ghost function Digit(ps: seq<PointState>, rows: seq<seq<int>>, i: nat, j: nat): int
    requires j < |rows| == |ps| && i < |rows[j]|
  {
    rows[j][i] - if i == 0 then ps[j].skewNa else 0
  }

  ghost function DigitsAt(ps: seq<PointState>, rows: seq<seq<int>>, i: nat, m: nat): (r: seq<int>)
    requires m <= |rows| == |ps| && forall j :: 0 <= j < |rows| ==> i < |rows[j]|
    ensures |r| == m && forall j :: 0 <= j < m ==> r[j] == Digit(ps, rows, i, j)
  {
    seq(m, j requires 0 <= j < m => Digit(ps, rows, i, j))
  }

  /** Puts n * p into the buckets for an odd n below 2^(window + 1), nothing for 0. */
  method Place<P(==, !new)>(g: Group<P>, buckets: array<P>, bucketWindow: nat, n: int, p: P)
    requires Laws(g) && buckets.Length == Pow2(bucketWindow)
    requires FixedWnaf.SmallDigit(n, bucketWindow + 1)
    modifies buckets
    ensures Weighted(g, buckets[..]) == g.add(old(Weighted(g, buckets[..])), Mul(g, n, p))
  {
    ghost var b := buckets[..];
    Zero(g, Weighted(g, b));
    if n > 0 {
      var idx := (n - 1) / 2;
      BucketAdd(g, b, idx, p);
      buckets[idx] := g.add(buckets[idx], p);
      assert buckets[..] == b[idx := g.add(b[idx], p)];
    } else if n < 0 {
      var idx := -(n + 1) / 2;
      BucketAdd(g, b, idx, g.neg(p));
      buckets[idx] := g.add(buckets[idx], g.neg(p));
      assert buckets[..] == b[idx := g.add(b[idx], g.neg(p))];
      assert 2 * idx + 1 == -n;
      Opposite(g, n, p);
    }
  }

  lemma Opposite<P(!new)>(g: Group<P>, n: int, p: P)
    requires Laws(g)
    ensures Mul(g, -n, g.neg(p)) == Mul(g, n, p)
  {
    MulSmall(g, p);
    MulMul(g, -n, -1, p);
    assert -n * -1 == n;
  }

  /** The body of the bucket loop for one point. */
  method Enter<P(==, !new)>(g: Group<P>, buckets: array<P>, bucketWindow: nat, n: int, i: nat, skew: int, p: P)
    requires Laws(g) && buckets.Length == Pow2(bucketWindow) && 0 <= skew <= 1
    requires FixedWnaf.SmallDigit(n, bucketWindow + 1)
    modifies buckets
    ensures Weighted(g, buckets[..])
         == g.add(old(Weighted(g, buckets[..])), Mul(g, n - if i == 0 then skew else 0, p))
  {
    ghost var b := buckets[..];
    if i == 0 && skew != 0 {
      BucketAdd(g, b, 0, g.neg(p));
      buckets[0] := g.add(buckets[0], g.neg(p));
      assert buckets[..] == b[0 := g.add(b[0], g.neg(p))];
      MulSmall(g, g.neg(p));
      MulSmall(g, p);
      MulAdd(g, -1, n, p);
      Assoc(g, Weighted(g, b), g.neg(p), Mul(g, n, p));
    }
    Place(g, buckets, bucketWindow, n, p);
  }

  /** Row values as the window loop needs them. */
  ghost predicate GoodRows(ps: seq<PointState>, rows: seq<seq<int>>, n: nat, w: nat) {
    && |rows| == |ps|
    && forall j :: 0 <= j < |ps| ==> |rows[j]| == n && GoodRow(rows[j], w, ps[j].skewNa)
  }

  lemma OneMoreDigit<P(!new)>(g: Group<P>, ps: seq<PointState>, rows: seq<seq<int>>, n: nat, w: nat,
                              i: nat, np: nat, pts: seq<P>)
    requires GoodRows(ps, rows, n, w) && i < n && np < |ps| == |pts|
    ensures Sum(g, DigitsAt(ps, rows, i, np + 1), pts[..np + 1])
         == g.add(Sum(g, DigitsAt(ps, rows, i, np), pts[..np]), Mul(g, Digit(ps, rows, i, np), pts[np]))
  {
    assert DigitsAt(ps, rows, i, np + 1) == DigitsAt(ps, rows, i, np) + [Digit(ps, rows, i, np)];
    assert pts[..np + 1] == pts[..np] + [pts[np]];
    SumAppend(g, DigitsAt(ps, rows, i, np), pts[..np], Digit(ps, rows, i, np), pts[np]);
  }

  method ClearBuckets<P(==, !new)>(g: Group<P>, buckets: array<P>)
    requires Laws(g)
    modifies buckets
    ensures Weighted(g, buckets[..]) == g.zero
  {
    for j := 0 to buckets.Length
      invariant forall k :: 0 <= k < j ==> buckets[k] == g.zero
    {
      buckets[j] := g.zero;
    }
    EmptyBuckets(g, buckets[..]);
  }

  /** The points that the entries refer to. */
  ghost predicate PointsOf<P(!new)>(ps: seq<PointState>, pt: seq<P>, pts: seq<P>) {
    |pts| == |ps| && forall j :: 0 <= j < |ps| ==> ps[j].inputPos < |pt| && pts[j] == pt[ps[j].inputPos]
  }

  lemma RowDigit(ps: seq<PointState>, wnafNa: seq<int>, n: nat, w: nat, rows: seq<seq<int>>, np: nat, i: nat)
    requires GoodRows(ps, rows, n, w) && Laid(wnafNa, n, rows) && np < |ps| && i < n
    ensures Offset(n, np + 1) <= |wnafNa| && RowOf(wnafNa, n, np) == rows[np]
    ensures FixedWnaf.SmallDigit(rows[np][i], w) && 0 <= ps[np].skewNa <= 1
    ensures Digit(ps, rows, i, np) == RowOf(wnafNa, n, np)[i] - if i == 0 then ps[np].skewNa else 0
  {
    assert RowAt(wnafNa, n, np, rows[np]);
  }

  /** Adds every point to the bucket of its digit at window i. */
  method FillBuckets<P(==, !new)>(g: Group<P>, buckets: array<P>, bucketWindow: nat, ps: seq<PointState>,
                                  wnafNa: seq<int>, n: nat, i: nat, pt: seq<P>,
                                  ghost rows: seq<seq<int>>, ghost pts: seq<P>)
    requires Laws(g) && buckets.Length == Pow2(bucketWindow) && i < n
    requires GoodRows(ps, rows, n, bucketWindow + 1) && Laid(wnafNa, n, rows) && PointsOf(ps, pt, pts)
    modifies buckets
    ensures Weighted(g, buckets[..]) == Sum(g, DigitsAt(ps, rows, i, |ps|), pts)
  {
    ClearBuckets(g, buckets);
    for np := 0 to |ps|
      invariant Filled(g, buckets[..], ps, rows, i, np, pts)
    {
      FillOne(g, buckets, bucketWindow, ps, wnafNa, n, i, np, pt, rows, pts);
    }
    assert pts[..|ps|] == pts;
  }

  /** The buckets hold the digits of the first np points. */
  ghost predicate Filled<P(!new)>(g: Group<P>, buckets: seq<P>, ps: seq<PointState>, rows: seq<seq<int>>,
                                  i: nat, np: nat, pts: seq<P>)
    requires np <= |ps| == |rows| == |pts| && forall j :: 0 <= j < |rows| ==> i < |rows[j]|
  {
    Weighted(g, buckets) == Sum(g, DigitsAt(ps, rows, i, np), pts[..np])
  }

  method FillOne<P(==, !new)>(g: Group<P>, buckets: array<P>, bucketWindow: nat, ps: seq<PointState>,
                              wnafNa: seq<int>, n: nat, i: nat, np: nat, pt: seq<P>,
                              ghost rows: seq<seq<int>>, ghost pts: seq<P>)
    requires Laws(g) && buckets.Length == Pow2(bucketWindow) && i < n && np < |ps|
    requires GoodRows(ps, rows, n, bucketWindow + 1) && Laid(wnafNa, n, rows) && PointsOf(ps, pt, pts)
    requires Filled(g, buckets[..], ps, rows, i, np, pts)
    modifies buckets
    ensures Filled(g, buckets[..], ps, rows, i, np + 1, pts)
  {
    ghost var before := buckets[..];
    RowDigit(ps, wnafNa, n, bucketWindow + 1, rows, np, i);
    var digit, p := RowOf(wnafNa, n, np)[i], pt[ps[np].inputPos];
    Enter(g, buckets, bucketWindow, digit, i, ps[np].skewNa, p);
    assert Weighted(g, buckets[..]) == g.add(Weighted(g, before), Mul(g, Digit(ps, rows, i, np), p));
    OneMoreDigit(g, ps, rows, n, bucketWindow + 1, i, np, pts);
    FilledNext(g, before, buckets[..], ps, rows, i, np, pts);
  }

  lemma FilledNext<P(!new)>(g: Group<P>, before: seq<P>, after: seq<P>, ps: seq<PointState>, rows: seq<seq<int>>,
                            i: nat, np: nat, pts: seq<P>)
    requires np < |ps| == |rows| == |pts| && forall j :: 0 <= j < |rows| ==> i < |rows[j]|
    requires Filled(g, before, ps, rows, i, np, pts)
    requires Weighted(g, after) == g.add(Weighted(g, before), Mul(g, Digit(ps, rows, i, np), pts[np]))
    requires Sum(g, DigitsAt(ps, rows, i, np + 1), pts[..np + 1])
          == g.add(Sum(g, DigitsAt(ps, rows, i, np), pts[..np]), Mul(g, Digit(ps, rows, i, np), pts[np]))
    ensures Filled(g, after, ps, rows, i, np + 1, pts)
  {
  }

  method DoubleTimes<P(==, !new)>(g: Group<P>, r0: P, k: nat) returns (r: P)
    requires Laws(g)
    ensures r == Mul(g, Pow2(k), r0)
  {
    r := r0;
    MulSmall(g, r0);
    for j := 0 to k
      invariant r == Mul(g, Pow2(j), r0)
    {
      MulMul(g, 2, Pow2(j), r0);
      MulSmall(g, r);
      r := g.add(r, r);
    }
  }

  /** Shifts the accumulator by one window and adds the weighted buckets. The last
      doubling is deferred so that it also doubles the suffix sums. */
  method AccumulateBuckets<P(==, !new)>(g: Group<P>, r0: P, buckets: seq<P>, bucketWindow: nat) returns (r: P)
    requires Laws(g) && |buckets| > 0
    ensures r == g.add(Mul(g, Pow2(bucketWindow + 1), r0), Weighted(g, buckets))
  {
    r := DoubleTimes(g, r0, bucketWindow);
    ghost var base := r;
    Zero(g, base);
    var runningSum := g.zero;
    var j := |buckets| - 1;
    while j > 0
      invariant 0 <= j < |buckets|
      invariant runningSum == Tail(g, buckets, j + 1)
      invariant r == g.add(base, Stairs(g, buckets, j + 1))
    {
      runningSum := g.add(runningSum, buckets[j]);
      Assoc(g, base, Stairs(g, buckets, j + 1), runningSum);
      r := g.add(r, runningSum);
      j := j - 1;
    }
    runningSum := g.add(runningSum, buckets[0]);
    DeferredDoubling(g, buckets, r0, base, r, bucketWindow);
    r := g.add(r, r);
    r := g.add(r, runningSum);
  }

  /** Doubling the shifted accumulator together with the stairs gives the last
      doubling of the window and the even part of every bucket's weight. */
  lemma DeferredDoubling<P(!new)>(g: Group<P>, b: seq<P>, r0: P, base: P, r: P, bucketWindow: nat)
    requires Laws(g) && |b| > 0 && base == Mul(g, Pow2(bucketWindow), r0)
    requires r == g.add(base, Stairs(g, b, 1))
    ensures g.add(g.add(r, r), g.add(Tail(g, b, 1), b[0]))
         == g.add(Mul(g, Pow2(bucketWindow + 1), r0), Weighted(g, b))
  {
    var stairs, sum := Stairs(g, b, 1), g.add(Tail(g, b, 1), b[0]);
    MulSmall(g, r);
    MulDist(g, 2, base, stairs);
    MulMul(g, 2, Pow2(bucketWindow), r0);
    Assoc(g, Mul(g, 2, base), Mul(g, 2, stairs), sum);
    SuffixSums(g, b);
  }

  lemma EvalRow(row: seq<int>, i: nat, w: nat)
    requires i < |row|
    ensures Eval(row[i..], w) == row[i] + Pow2(w) * Eval(row[i + 1..], w)
  {
    assert row[i..][1..] == row[i + 1..];
  }

  /** One window of the Horner evaluation. */
  lemma WindowStep<P(!new)>(g: Group<P>, ps: seq<PointState>, rows: seq<seq<int>>, n: nat, w: nat,
                            i: nat, pts: seq<P>)
    requires Laws(g) && GoodRows(ps, rows, n, w) && i < n && |pts| == |ps|
    ensures Sum(g, Tops(ps, rows, w, i), pts)
         == g.add(Mul(g, Pow2(w), Sum(g, Tops(ps, rows, w, i + 1), pts)),
                  Sum(g, DigitsAt(ps, rows, i, |ps|), pts))
  {
    var t := Tops(ps, rows, w, i + 1);
    var scaled := seq(|ps|, j requires 0 <= j < |ps| => Pow2(w) * t[j]);
    SumScale(g, Pow2(w), t, scaled, pts);
    forall j | 0 <= j < |ps|
      ensures Tops(ps, rows, w, i)[j] == scaled[j] + DigitsAt(ps, rows, i, |ps|)[j]
    {
      EvalRow(rows[j], i, w);
    }
    SumAdd(g, scaled, DigitsAt(ps, rows, i, |ps|), Tops(ps, rows, w, i), pts);
  }

  lemma NoWindows<P(!new)>(g: Group<P>, ps: seq<PointState>, rows: seq<seq<int>>, n: nat, w: nat, pts: seq<P>)
    requires Laws(g) && GoodRows(ps, rows, n, w) && |pts| == |ps| && n > 0
    ensures Sum(g, Tops(ps, rows, w, n), pts) == g.zero
  {
    SumZero(g, Tops(ps, rows, w, n), pts);
  }

  /** The loop over all windows. */
  method AllWindows<P(==, !new)>(g: Group<P>, buckets: array<P>, bucketWindow: nat, ps: seq<PointState>,
                                 wnafNa: seq<int>, n: nat, pt: seq<P>,
                                 ghost rows: seq<seq<int>>, ghost pts: seq<P>) returns (r: P)
    requires Laws(g) && buckets.Length == Pow2(bucketWindow) && n > 0
    requires GoodRows(ps, rows, n, bucketWindow + 1) && Laid(wnafNa, n, rows)
    requires PointsOf(ps, pt, pts)
    modifies buckets
    ensures r == Sum(g, Tops(ps, rows, bucketWindow + 1, 0), pts)
  {
    r := g.zero;
    NoWindows(g, ps, rows, n, bucketWindow + 1, pts);
    for i := n downto 0
      invariant r == Sum(g, Tops(ps, rows, bucketWindow + 1, i), pts)
    {
      FillBuckets(g, buckets, bucketWindow, ps, wnafNa, n, i, pt, rows, pts);
      r := AccumulateBuckets(g, r, buckets[..], bucketWindow);
      WindowStep(g, ps, rows, n, bucketWindow + 1, i, pts);
    }
  }

  /** r = the sum of sc[i] * pt[i]. */
  method Multiply<P(==, !new)>(g: Group<P>, buckets: array<P>, bucketWindow: nat,
                               ps: array<PointState>, wnafNa: array<int>,
                               sc: seq<Scalar>, pt: seq<P>) returns (r: P)
    requires Laws(g) && 1 <= bucketWindow <= 12 && buckets.Length == Pow2(bucketWindow)
    requires |pt| == |sc| <= ps.Length && Offset(Words(bucketWindow + 1), |pt|) <= wnafNa.Length
    modifies buckets, ps, wnafNa
    ensures r == Sum(g, sc, pt)
  {
    var n := Words(bucketWindow + 1);
    FixedWnaf.SizeBitsBounds(FixedWnaf.WNAF_BITS, bucketWindow + 1);
    var no, st := Prepare(g, ps, wnafNa, n, bucketWindow + 1, pt, sc);
    Close(g, st, n, bucketWindow + 1, pt, sc, |pt|);
    assert sc[..|pt|] == sc && pt[..|pt|] == pt;
    if no == 0 {
      assert Tops([], [], bucketWindow + 1, 0) == [];
      return g.zero;
    }
    r := AllWindows(g, buckets, bucketWindow, ps[..no], wnafNa[..], n, pt, st.rows, Kept(st.kept, pt));
  }
}
