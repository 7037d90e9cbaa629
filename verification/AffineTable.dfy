/**
 The storage table in the group of the curve itself. Where the points of
 y^2 = x^3 + 7 are a group of prime order whose addition follows chords and
 tangents, the table holds the odd multiples of its point, and no addition in
 building it meets two points of the same x.
 */
module AffineTable {
  import opened Scalars
  import opened FieldReduce
  import opened FieldPower
  import opened FieldCongruence
  import opened Jacobian
  import opened PubkeyCodec
  import opened StorageTable
  import opened Strauss
  import Arith
  import G = CurveGroup
  import Table = OddMultiples

  /** Infinity and the points on the curve. */
  type Point = e: Ge | e.Infinity? || OnCurve(e.x, e.y) witness Infinity

  function Coordinates(p: Point): Xy
    requires p.Affine?
  {
    Xy(p.x, p.y)
  }

  // ---- the group of the curve ----

  ghost function Mul(g: G.Group<Point>, k: int, p: Point): Point {
    G.Mul(g, k, p)
  }

  ghost predicate NegAt(g: G.Group<Point>, p: Point) {
    p.Affine? ==> g.neg(p) == Affine(p.x, FNeg(p.y))
  }

  ghost predicate DoubleAt(g: G.Group<Point>, p: Point) {
    p.Affine? ==> g.add(p, p).Affine? && Tangent(Coordinates(p), Coordinates(g.add(p, p)))
  }

  ghost predicate AddAt(g: G.Group<Point>, p: Point, q: Point) {
    p.Affine? && q.Affine? && p.x != q.x ==>
      g.add(p, q).Affine? && Chord(Coordinates(p), Coordinates(q), Coordinates(g.add(p, q)))
  }

  /** A group of prime order with infinity as its zero, whose negation mirrors and
      whose addition follows chords and tangents. */
  ghost predicate ChordAndTangent(g: G.Group<Point>) {
    && G.Laws(g) && G.PrimeOrder(g) && g.zero == Infinity
    && (forall p: Point {:trigger NegAt(g, p)} :: NegAt(g, p))
    && (forall p: Point {:trigger DoubleAt(g, p)} :: DoubleAt(g, p))
    && (forall p: Point, q: Point {:trigger AddAt(g, p, q)} :: AddAt(g, p, q))
  }

  /** Two points of the same x are the same or mirrored. */
  lemma SameX(g: G.Group<Point>, p: Point, q: Point)
    requires Fermat() && ChordAndTangent(g) && p.Affine? && q.Affine? && p.x == q.x
    ensures p == q || p == g.neg(q)
  {
    TwoRoots(p.y, q.y);
    assert NegAt(g, q);
  }

  lemma SmallMultiple(g: G.Group<Point>, k: int, p: Point)
    requires ChordAndTangent(g) && p.Affine? && 0 < Abs(k) < N
    ensures Mul(g, k, p).Affine?
  {
    if Mul(g, k, p) == g.zero {
      assert G.AtMul(k, p);
      NotMultiple(k);
    }
  }

  lemma NotMultiple(k: int)
    requires 0 < Abs(k) < N
    ensures k % N != 0
  {
  }

  /** An odd multiple and the double have different x coordinates. */
  lemma DifferentX(g: G.Group<Point>, k: int, p: Point)
    requires Fermat() && ChordAndTangent(g) && p.Affine? && k % 2 == 1 && 0 < k && k + 2 < N
    ensures var m, q := Mul(g, k, p), Mul(g, 2, p);
            m.Affine? && q.Affine? && m.x != q.x
  {
    var m, q := Mul(g, k, p), Mul(g, 2, p);
    SmallMultiple(g, k, p);
    SmallMultiple(g, 2, p);
    SmallMultiple(g, k + 2, p);
    SmallMultiple(g, k - 2, p);
    if m.x == q.x {
      SameX(g, m, q);
      G.MulNeg(g, 2, p);
      G.MulAdd(g, k, 2, p);
      G.MulAdd(g, k, -2, p);
      G.Zero(g, q);
    }
  }

  // ---- the coordinates of the additions ----

  ghost predicate IsXy(p: Point, e: Xy) {
    p.Affine? && e == Coordinates(p)
  }

  /** p is held in the coordinates f, whose denominator is short of the factor dz. The
      quantifier keeps the products out of proofs that do not need them (Opened). */
  ghost predicate Held(p: Point, f: Jac, dz: nat) {
    forall e: Xy {:trigger IsXy(p, e)} :: IsXy(p, e) ==> AffineOf(e, f.x, f.y, f.z * dz)
  }

  lemma Opened(p: Point, f: Jac, dz: nat)
    requires p.Affine? && Held(p, f, dz)
    ensures AffineOf(Coordinates(p), f.x, f.y, f.z * dz)
    ensures dz == 1 ==> AffineOf(Coordinates(p), f.x, f.y, f.z)
  {
    assert IsXy(p, Coordinates(p));
  }

  lemma StartIsPoint(p: Xy, a: Jac, d: Jac)
    requires AffineOf(p, a.x, a.y, a.z)
    ensures var f := Start(a, d); AffineOf(p, f.x, f.y, f.z * d.z)
  {
    var dz, f := d.z, Start(a, d);
    MulMeans(dz, dz, dz, dz);
    MulMeans(FMul(dz, dz), dz, dz * dz, dz);
    MulMeans(a.x, FMul(dz, dz), a.x, dz * dz);
    MulMeans(a.y, FMul(FMul(dz, dz), dz), a.y, (dz * dz) * dz);
    Common(p, a.x, a.y, dz, a.z, a.z * dz);
    Sym(f.x, a.x * (dz * dz));
    Sym(f.y, a.y * ((dz * dz) * dz));
    Trans(p.x * ((a.z * dz) * (a.z * dz)), a.x * (dz * dz), f.x);
    Trans(p.y * (((a.z * dz) * (a.z * dz)) * (a.z * dz)), a.y * ((dz * dz) * dz), f.y);
  }

  /** Every denominator but zero has an affine form. */
  lemma AffineForm(x: nat, y: nat, w: int, v: nat) returns (r: Xy)
    requires Eq(v * w, 1)
    ensures AffineOf(r, x, y, w) && r.x < P && r.y < P
  {
    r := Xy(FMul(x, FMul(v, v)), FMul(y, FMul(FMul(v, v), v)));
    ZinvIsAffine(x, y, v, w, r);
  }

  lemma InverseOf(z: nat, dz: nat) returns (v: nat)
    requires Fermat() && 0 < z < P && 0 < dz < P
    ensures Eq(v * (z * dz), 1)
  {
    var s := Invertible(z);
    var t := Invertible(dz);
    UnitProduct(z, s, dz, t);
    v := s * t;
    assert v * (z * dz) == (z * dz) * (s * t);
  }

  /** The double, and that it is finite. */
  lemma DoubleCoordinates(g: G.Group<Point>, p: Point, a: Jac)
    requires Fermat() && ChordAndTangent(g) && p.Affine? && Held(p, a, 1) && 0 < a.z < P
    ensures IsDouble(g, p, DoubleJ(a))
  {
    var d, q := DoubleJ(a), Mul(g, 2, p);
    Opened(p, a, 1);
    G.MulSmall(g, p);
    assert DoubleAt(g, p);
    DoubleZ(p, a);
    var v := Invertible(d.z);
    assert v * d.z == d.z * v;
    var r := AffineForm(d.x, d.y, d.z, v);
    DoubleIsTangent(a, Coordinates(p), r, v);
    OneTangent(Coordinates(p), r, Coordinates(q));
  }

  lemma DoubleZ(p: Point, a: Jac)
    requires Fermat() && p.Affine? && AffineOf(Coordinates(p), a.x, a.y, a.z) && 0 < a.z < P
    ensures 0 < DoubleJ(a).z < P
  {
    NoZeroY(p.x, p.y);
    var t := FMul(a.z, a.y);
    if FMul(2, t) == 0 {
      NoZeroDivisors(2, t);
      OfFMul(a.z, a.y);
      var s := Invertible(a.z);
      Scale(0, a.z * a.y, s);
      assert (a.z * a.y) * s == a.y * (a.z * s);
      Unit(a.y, a.z, s);
      Trans(0, a.y * (a.z * s), a.y);
      var u := (a.z * a.z) * a.z;
      UnitProduct(a.z, s, a.z, s);
      UnitProduct(a.z * a.z, s * s, a.z, s);
      Trans(p.y * u, a.y, 0 * u);
      FieldCongruence.Cancel(p.y, 0, u, (s * s) * s);
      Unique(p.y, 0);
    }
  }

  /** The coordinates f, over a denominator dz, are those of k times p. */
  ghost predicate Reached(g: G.Group<Point>, p: Point, k: int, f: Jac, dz: nat) {
    var m := Mul(g, k, p);
    0 < f.z < P && m.Affine? && Held(m, f, dz)
  }

  /** The coordinates d are those of twice p. */
  ghost predicate IsDouble(g: G.Group<Point>, p: Point, d: Jac) {
    var q := Mul(g, 2, p);
    0 < d.z < P && q.Affine? && Held(q, d, 1)
  }

  lemma RatioNotZero(f: Jac, d: Jac, p: Xy, q: Xy)
    requires Fermat() && 0 < f.z < P && 0 < d.z < P && p.x < P && q.x < P && p.x != q.x
    requires AffineOf(p, f.x, f.y, f.z * d.z) && AffineOf(q, d.x, d.y, d.z)
    ensures 0 < H(f, Xy(d.x, d.y)) < P
  {
    var b, w := Xy(d.x, d.y), f.z * d.z;
    var h, i := H(f, b), I(f, b);
    HMeans(f, b);
    IMeans(f, b);
    Differences(f, d, h, i, p, q);
    if h == 0 {
      var v := InverseOf(f.z, d.z);
      assert v * w == w * v;
      UnitProduct(w, v, w, v);
      Trans((q.x - p.x) * (w * w), h, 0 * (w * w));
      FieldCongruence.Cancel(q.x - p.x, 0, w * w, v * v);
      Refl(p.x);
      FieldCongruence.Sum(q.x - p.x, 0, p.x, p.x);
      Unique(q.x, p.x);
    }
  }

  /** The formula reaches the point that the chord leads to. */
  lemma FollowsChord(f: Jac, d: Jac, m: Xy, q: Xy, next: Xy)
    requires Fermat() && 0 < f.z < P && 0 < d.z < P && m.x < P && q.x < P && m.x != q.x
    requires AffineOf(m, f.x, f.y, f.z * d.z) && AffineOf(q, d.x, d.y, d.z)
    requires Chord(m, q, next) && next.x < P && next.y < P
    ensures 0 < H(f, Xy(d.x, d.y)) < P
    ensures var s := AddGe(f, Xy(d.x, d.y)); 0 < s.z < P && AffineOf(next, s.x, s.y, s.z * d.z)
  {
    var s := AddGe(f, Xy(d.x, d.y));
    RatioNotZero(f, d, m, q);
    NextZ(f, d, s);
    var v := InverseOf(s.z, d.z);
    var r := AffineForm(s.x, s.y, s.z * d.z, v);
    NextChord(f, s, d, m, q, r);
    OneChord(m, q, r, next);
  }

  /** In the group, the formula reaches the sum. */
  lemma ReachesSum(g: G.Group<Point>, m: Point, q: Point, f: Jac, d: Jac)
    requires Fermat() && ChordAndTangent(g) && m.Affine? && q.Affine? && m.x != q.x
    requires 0 < f.z < P && 0 < d.z < P
    requires AffineOf(Coordinates(m), f.x, f.y, f.z * d.z) && AffineOf(Coordinates(q), d.x, d.y, d.z)
    ensures H(f, Xy(d.x, d.y)) != 0
    ensures var s, t := AddGe(f, Xy(d.x, d.y)), g.add(m, q);
            0 < s.z < P && t.Affine? && AffineOf(Coordinates(t), s.x, s.y, s.z * d.z)
  {
    assert AddAt(g, m, q);
    FollowsChord(f, d, Coordinates(m), Coordinates(q), Coordinates(g.add(m, q)));
  }

  /** One addition: the double is added, and the points had different x. */
  lemma OneAddition(g: G.Group<Point>, p: Point, d: Jac, k: int, f: Jac, k': int, f': Jac)
    requires Fermat() && ChordAndTangent(g) && p.Affine? && k % 2 == 1 && 0 < k && k' == k + 2 < N
    requires IsDouble(g, p, d) && Reached(g, p, k, f, d.z) && f' == AddGe(f, Xy(d.x, d.y))
    ensures H(f, Xy(d.x, d.y)) != 0 && Reached(g, p, k', f', d.z)
  {
    DifferentX(g, k, p);
    G.MulAdd(g, k, 2, p);
    Opened(Mul(g, k, p), f, d.z);
    Opened(Mul(g, 2, p), d, 1);
    ReachesSum(g, Mul(g, k, p), Mul(g, 2, p), f, d);
  }

  lemma NextZ(f: Jac, d: Jac, f': Jac)
    requires Fermat() && f' == AddGe(f, Xy(d.x, d.y)) && 0 < f.z < P && 0 < H(f, Xy(d.x, d.y)) < P
    ensures 0 < f'.z < P
  {
    if f'.z == 0 {
      NoZeroDivisors(f.z, H(f, Xy(d.x, d.y)));
    }
  }

  /** f j is followed by f (j + 1). */
  ghost predicate FollowedAt(f: nat -> Jac, d: Jac, j: nat) {
    f(j + 1) == AddGe(f(j), Xy(d.x, d.y))
  }

  lemma FirstReached(g: G.Group<Point>, p: Point, a: Jac, d: Jac)
    requires ChordAndTangent(g) && p.Affine? && Held(p, a, 1) && 0 < a.z < P
    ensures Reached(g, p, 1, Start(a, d), d.z)
  {
    G.MulSmall(g, p);
    Opened(p, a, 1);
    StartIsPoint(Coordinates(p), a, d);
  }

  /** A run of additions goes through the odd multiples. */
  lemma {:induction false} RunReaches(g: G.Group<Point>, p: Point, d: Jac, f: nat -> Jac, i: nat, k: int)
    requires Fermat() && ChordAndTangent(g) && p.Affine? && k == 2 * i + 1 < N && IsDouble(g, p, d)
    requires Reached(g, p, 1, f(0), d.z)
    requires forall j: nat {:trigger FollowedAt(f, d, j)} :: FollowedAt(f, d, j)
    ensures Reached(g, p, k, f(i), d.z)
    decreases i
  {
    if i > 0 {
      RunReaches(g, p, d, f, i - 1, k - 2);
      assert FollowedAt(f, d, i - 1);
      OneAddition(g, p, d, k - 2, f(i - 1), k, f(i));
    }
  }

  lemma EachReached(g: G.Group<Point>, p: Point, a: Jac, d: Jac, i: nat)
    requires Fermat() && ChordAndTangent(g) && p.Affine? && 2 * i + 1 < N && IsDouble(g, p, d)
    requires Held(p, a, 1) && 0 < a.z < P
    ensures Reached(g, p, 2 * i + 1, Forward(a, d, i), d.z)
  {
    FirstReached(g, p, a, d);
    RunReaches(g, p, d, (j: nat) => Forward(a, d, j), i, 2 * i + 1);
  }

  lemma EachRatio(g: G.Group<Point>, p: Point, a: Jac, d: Jac, i: nat)
    requires Fermat() && ChordAndTangent(g) && p.Affine? && 2 * i + 3 < N && IsDouble(g, p, d)
    requires Held(p, a, 1) && 0 < a.z < P
    ensures Ratio(a, d, i + 1) != 0
  {
    var f, k := Forward(a, d, i), 2 * i + 1;
    EachReached(g, p, a, d, i);
    OneAddition(g, p, d, k, f, k + 2, AddGe(f, Xy(d.x, d.y)));
  }

  /** No addition in building the table meets two points of the same x. */
  lemma IsRegular(g: G.Group<Point>, p: Point, a: Jac, n: nat)
    requires Fermat() && ChordAndTangent(g) && p.Affine? && 0 < n && 2 * n < N
    requires Held(p, a, 1) && 0 < a.z < P
    ensures Regular(a, DoubleJ(a), n)
  {
    DoubleCoordinates(g, p, a);
    forall i | 0 < i < n ensures Ratio(a, DoubleJ(a), i) != 0 {
      EachRatio(g, p, a, DoubleJ(a), i - 1);
    }
  }

  /** The entry that belongs to an odd multiple is that multiple. */
  lemma EntryIsMultiple(g: G.Group<Point>, p: Point, a: Jac, i: nat, e: Xy)
    requires Fermat() && ChordAndTangent(g) && p.Affine? && 2 * i + 1 < N
    requires Held(p, a, 1) && 0 < a.z < P && Entry(a, DoubleJ(a), i, e)
    ensures Mul(g, 2 * i + 1, p) == Affine(e.x, e.y)
  {
    var d, m := DoubleJ(a), Mul(g, 2 * i + 1, p);
    DoubleCoordinates(g, p, a);
    var f := Forward(a, d, i);
    EachReached(g, p, a, d, i);
    Opened(m, f, d.z);
    var w := f.z * d.z;
    var v := InverseOf(f.z, d.z);
    assert v * w == w * v;
    UnitProduct(w, v, w, v);
    UnitProduct(w * w, v * v, w, v);
    Trans(e.x * (w * w), f.x, m.x * (w * w));
    Trans(e.y * ((w * w) * w), f.y, m.y * ((w * w) * w));
    FieldCongruence.Cancel(e.x, m.x, w * w, v * v);
    FieldCongruence.Cancel(e.y, m.y, (w * w) * w, (v * v) * v);
    Unique(e.x, m.x);
    Unique(e.y, m.y);
  }

  // ---- the context's table ----

  /** The entries as points. */
  function Points(pre: seq<Xy>): (r: seq<Point>)
    requires forall i :: 0 <= i < |pre| ==> OnCurve(pre[i].x, pre[i].y)
    ensures |r| == |pre| && forall i :: 0 <= i < |pre| ==> r[i] == Affine(pre[i].x, pre[i].y)
  {
    seq(|pre|, i requires 0 <= i < |pre| => Affine(pre[i].x, pre[i].y))
  }

  /** `secp256k1_ecmult_context_build`, as the source builds the table: by the
      additions on the isomorphic curve and the backward pass. */
  method ContextBuild(g: G.Group<Point>) returns (preG: array<Xy>)
    requires Fermat() && ChordAndTangent(g) && g.gen.Affine?
    ensures fresh(preG) && forall i :: 0 <= i < preG.Length ==> OnCurve(preG[i].x, preG[i].y)
    ensures GeneratorTable(g, Points(preG[..]))
  {
    var n := Table.TableSize(WINDOW_G);
    WindowFits();
    preG := new Xy[n](_ => Xy(0, 0));
    var gj := Jac(g.gen.x, g.gen.y, 1);
    GeneratorHeld(g.gen);
    IsRegular(g, g.gen, gj, n);
    StorageTable.OddMultiples(n, preG, gj);
    forall i | 0 <= i < n ensures Mul(g, 2 * i + 1, g.gen) == Affine(preG[i].x, preG[i].y) {
      EntryIsMultiple(g, g.gen, gj, i, preG[i]);
    }
  }

  lemma GeneratorHeld(p: Point)
    requires p.Affine?
    ensures Held(p, Jac(p.x, p.y, 1), 1)
  {
    assert p.x * (1 * 1) == p.x && p.y * ((1 * 1) * 1) == p.y;
  }

  lemma WindowFits()
    ensures Table.TableSize(WINDOW_G) == 0x4000
  {
    assert Arith.Pow2(14) == 0x4000;
  }
}
