/**
 Points in Jacobian coordinates: (x, y, z) stands for (x / z^2, y / z^3). The
 addition and doubling formulas of `group_impl.h`, and that they follow the chord
 and the tangent of y^2 = x^3 + 7.
 */
module Jacobian {
  import opened Modular
  import opened FieldReduce
  import opened FieldPower
  import opened FieldCongruence

  datatype Jac = Jac(x: nat, y: nat, z: nat)
  datatype Xy = Xy(x: nat, y: nat)

  /** a - b, reduced; see SubMeans. */
  function FSub(a: int, b: nat): (r: nat)
    ensures r < P
  {
    AddTimes(-1, b, a, P)
  }

  // ---- the formulas ----

  /** `h`, which is also the ratio of the z coordinates. */
  function H(a: Jac, b: Xy): nat {
    FSub(FMul(b.x, FMul(a.z, a.z)), a.x)
  }

  function I(a: Jac, b: Xy): nat {
    FSub(FMul(FMul(b.y, FMul(a.z, a.z)), a.z), a.y)
  }

  /** a + b for an affine b with another x coordinate. */
  function AddGe(a: Jac, b: Xy): Jac {
    AddWith(a, H(a, b), I(a, b))
  }

  function AddWith(a: Jac, h: nat, i: nat): Jac {
    var h2 := FMul(h, h);
    var h3 := FMul(h, h2);
    var t := FMul(a.x, h2);
    var x := FSub(FMul(i, i), 2 * t + h3);
    Jac(x, FSub(FMul(FSub(t, x), i), FMul(h3, a.y)), FMul(a.z, h))
  }

  /** 2 a. */
  function DoubleJ(a: Jac): Jac {
    var t1 := FMul(3, FMul(a.x, a.x));
    var t2 := FMul(t1, t1);
    var s := FMul(2, FMul(a.y, a.y));
    var t4 := FMul(2, FMul(s, s));
    var t3 := FMul(s, a.x);
    Jac(FSub(t2, 4 * t3), FSub(FMul(t1, FSub(6 * t3, t2)), t4), FMul(2, FMul(a.z, a.y)))
  }

  // ---- what they mean ----

  /** p is the affine form of Jacobian coordinates x, y with denominator w. */
  ghost predicate AffineOf(p: Xy, x: int, y: int, w: int) {
    Eq(p.x * (w * w), x) && Eq(p.y * ((w * w) * w), y)
  }

  /** r is the third point on the line through p with slope l, mirrored. */
  ghost predicate OnLine(l: int, p: Xy, q: int, r: Xy) {
    Eq(r.x, l * l - p.x - q) && Eq(r.y, l * (p.x - r.x) - p.y)
  }

  ghost predicate SlopeOf(l: int, m: int, n: int) {
    Eq(l * m, n)
  }

  /** The chord through p and q has a slope and leads to r, whatever way the slope
      is written. */
  ghost predicate Chord(p: Xy, q: Xy, r: Xy) {
    && !Eq(q.x - p.x, 0)
    && forall l: int :: SlopeOf(l, q.x - p.x, q.y - p.y) ==> OnLine(l, p, q.x, r)
  }

  /** The tangent at p has a slope and leads to r. */
  ghost predicate Tangent(p: Xy, r: Xy) {
    && !Eq(2 * p.y, 0)
    && forall l: int :: SlopeOf(l, 2 * p.y, 3 * (p.x * p.x)) ==> OnLine(l, p, p.x, r)
  }

  /** There is a slope wherever the denominator is not zero. */
  lemma Divide(m: int, n: int) returns (l: int)
    requires Fermat() && !Eq(m, 0)
    ensures SlopeOf(l, m, n)
  {
    var u: nat := m % P;
    RemainderMod(m, P);
    AlikeMod(u, m, P);
    AlikeMod(m, 0, P);
    var v := Invertible(u);
    Scale(u, m, v);
    Trans(m * v, u * v, 1);
    Scale(m * v, 1, n);
    l := n * v;
    assert l * m == n * (m * v);
  }

  lemma OnOneLine(l: int, p: Xy, q: int, r: Xy, s: Xy)
    requires OnLine(l, p, q, r) && OnLine(l, p, q, s)
    requires r.x < P && r.y < P && s.x < P && s.y < P
    ensures r == s
  {
    Sym(s.x, l * l - p.x - q);
    Trans(r.x, l * l - p.x - q, s.x);
    Unique(r.x, s.x);
    Trans(r.y, l * (p.x - r.x) - p.y, s.y);
    Unique(r.y, s.y);
  }

  /** A chord leads to one point only, and so does a tangent. */
  lemma OneChord(p: Xy, q: Xy, r: Xy, s: Xy)
    requires Fermat() && Chord(p, q, r) && Chord(p, q, s)
    requires r.x < P && r.y < P && s.x < P && s.y < P
    ensures r == s
  {
    var l := Divide(q.x - p.x, q.y - p.y);
    OnOneLine(l, p, q.x, r, s);
  }

  lemma OneTangent(p: Xy, r: Xy, s: Xy)
    requires Fermat() && Tangent(p, r) && Tangent(p, s)
    requires r.x < P && r.y < P && s.x < P && s.y < P
    ensures r == s
  {
    var l := Divide(2 * p.y, 3 * (p.x * p.x));
    OnOneLine(l, p, p.x, r, s);
  }

  // ---- the addition formula in integers ----

  lemma HMeans(a: Jac, b: Xy)
    ensures Eq(H(a, b), b.x * (a.z * a.z) - a.x)
  {
    OfFMul(a.z, a.z);
    OfFMul(b.x, FMul(a.z, a.z));
    Scale(FMul(a.z, a.z), a.z * a.z, b.x);
    Trans(FMul(b.x, FMul(a.z, a.z)), b.x * FMul(a.z, a.z), b.x * (a.z * a.z));
    SubMeans(FMul(b.x, FMul(a.z, a.z)), a.x, b.x * (a.z * a.z), a.x);
  }

  lemma SubMeans(a: int, b: nat, c: int, d: int)
    requires Eq(a, c) && (b == d || Eq(b, d))
    ensures Eq(FSub(a, b), c - d)
  {
    Refl(b);
    AddTimesMod(-1, b, a, P);
    Reduces(a - b);
    Sum(a, c, b, d);
    Trans(FSub(a, b), a - b, c - d);
  }

  lemma MulMeans(a: int, b: nat, c: int, d: int)
    requires (a == c || Eq(a, c)) && (b == d || Eq(b, d))
    ensures Eq(FMul(a, b), c * d)
  {
    Refl(a);
    Refl(b);
    OfFMul(a, b);
    FieldCongruence.Mul(a, c, b, d);
    Trans(FMul(a, b), a * b, c * d);
  }

  lemma IMeans(a: Jac, b: Xy)
    ensures Eq(I(a, b), b.y * ((a.z * a.z) * a.z) - a.y)
  {
    MulMeans(a.z, a.z, a.z, a.z);
    MulMeans(b.y, FMul(a.z, a.z), b.y, a.z * a.z);
    MulMeans(FMul(b.y, FMul(a.z, a.z)), a.z, b.y * (a.z * a.z), a.z);
    assert (b.y * (a.z * a.z)) * a.z == b.y * ((a.z * a.z) * a.z);
    SubMeans(FMul(FMul(b.y, FMul(a.z, a.z)), a.z), a.y, b.y * ((a.z * a.z) * a.z), a.y);
  }

  lemma AddMeans(a: Jac, h: nat, i: nat)
    ensures var r := AddWith(a, h, i);
            && Eq(r.x, i * i - 2 * (a.x * (h * h)) - h * (h * h))
            && Eq(r.y, (a.x * (h * h) - r.x) * i - (h * (h * h)) * a.y)
            && Eq(r.z, a.z * h)
  {
    var r := AddWith(a, h, i);
    var h2 := FMul(h, h);
    var h3 := FMul(h, h2);
    var t := FMul(a.x, h2);
    MulMeans(h, h, h, h);
    MulMeans(h, h2, h, h * h);
    MulMeans(a.x, h2, a.x, h * h);
    MulMeans(i, i, i, i);
    Scale(t, a.x * (h * h), 2);
    Sum(2 * t, 2 * (a.x * (h * h)), h3, h * (h * h));
    SubMeans(FMul(i, i), 2 * t + h3, i * i, 2 * (a.x * (h * h)) + h * (h * h));
    SubMeans(t, r.x, a.x * (h * h), r.x);
    MulMeans(FSub(t, r.x), i, a.x * (h * h) - r.x, i);
    MulMeans(h3, a.y, h * (h * h), a.y);
    SubMeans(FMul(FSub(t, r.x), i), FMul(h3, a.y), (a.x * (h * h) - r.x) * i, (h * (h * h)) * a.y);
    OfFMul(a.z, h);
  }

  // ---- the chord ----

  lemma SplitDenominator(q: int, z: int, dz: int)
    ensures q * ((z * dz) * (z * dz)) == (q * (dz * dz)) * (z * z)
    ensures q * (((z * dz) * (z * dz)) * (z * dz)) == (q * ((dz * dz) * dz)) * ((z * z) * z)
  {
    Exchange(z, dz, z, dz);
    var zz, dd := z * z, dz * dz;
    assert q * (zz * dd) == (q * dd) * zz;
    Exchange(zz, dd, z, dz);
    assert q * ((zz * z) * (dd * dz)) == (q * (dd * dz)) * (zz * z);
  }

  /** The other point brought to the common denominator. */
  lemma Common(q: Xy, dx: int, dy: int, z: int, dz: int, w: int)
    requires w == z * dz && AffineOf(q, dx, dy, dz)
    ensures Eq(q.x * (w * w), dx * (z * z)) && Eq(q.y * ((w * w) * w), dy * ((z * z) * z))
  {
    SplitDenominator(q.x, z, dz);
    SplitDenominator(q.y, z, dz);
    Scale(q.x * (dz * dz), dx, z * z);
    Scale(q.y * ((dz * dz) * dz), dy, (z * z) * z);
  }

  lemma Difference(a: int, b: int, u: int, x: int, y: int, h: int)
    requires Eq(a * u, x) && Eq(b * u, y) && Eq(h, x - y)
    ensures Eq((a - b) * u, h)
  {
    Sum(a * u, x, b * u, y);
    assert (a - b) * u == a * u - b * u;
    Sym(h, x - y);
    Trans((a - b) * u, x - y, h);
  }

  /** The slope, freed of denominators. */
  lemma Slope(l: int, m: int, n: int, w: int, h: int, i: int)
    requires Eq(l * m, n) && Eq(m * (w * w), h) && Eq(n * ((w * w) * w), i)
    ensures Eq((l * h) * w, i)
  {
    Scale(m * (w * w), h, l * w);
    Scale(l * m, n, (w * w) * w);
    assert (m * (w * w)) * (l * w) == (l * m) * ((w * w) * w) by { Exchange(m, w * w, l, w); }
    assert h * (l * w) == (l * h) * w;
    Sym((m * (w * w)) * (l * w), (l * h) * w);
    Trans((l * h) * w, (l * m) * ((w * w) * w), n * ((w * w) * w));
    Trans((l * h) * w, n * ((w * w) * w), i);
  }

  lemma OverU(a: int, w: int, h: int)
    ensures a * ((w * h) * (w * h)) == (a * (w * w)) * (h * h)
    ensures a * (((w * h) * (w * h)) * (w * h)) == (a * ((w * w) * w)) * ((h * h) * h)
  {
    SplitDenominator(a, h, w);
    assert w * h == h * w;
  }

  lemma LineX(l: int, p: int, q: int, w: int, h: int, i: int, x: int, y: int, x3: int)
    requires Eq((l * h) * w, i) && Eq(p * (w * w), x) && Eq(q * (w * w), y)
    requires Eq(x3, i * i - x * (h * h) - y * (h * h))
    ensures Eq((l * l - p - q) * ((w * h) * (w * h)), x3)
  {
    var u2 := (w * h) * (w * h);
    Power2((l * h) * w, i);
    assert (l * l) * u2 == ((l * h) * w) * ((l * h) * w) by {
      assert (l * h) * w == l * (w * h);
      Exchange(l, w * h, l, w * h);
    }
    OverU(p, w, h);
    OverU(q, w, h);
    Scale(p * (w * w), x, h * h);
    Scale(q * (w * w), y, h * h);
    Sum((l * l) * u2, i * i, p * u2, x * (h * h));
    Sum((l * l) * u2 - p * u2, i * i - x * (h * h), q * u2, y * (h * h));
    assert (l * l - p - q) * u2 == (l * l) * u2 - p * u2 - q * u2;
    Sym(x3, i * i - x * (h * h) - y * (h * h));
    Trans((l * l - p - q) * u2, i * i - x * (h * h) - y * (h * h), x3);
  }

  lemma LineY(l: int, p: int, py: int, r: int, w: int, h: int, i: int, x: int, y: int, x3: int, y3: int)
    requires Eq((l * h) * w, i) && Eq(p * (w * w), x) && Eq(py * ((w * w) * w), y)
    requires Eq(r * ((w * h) * (w * h)), x3) && Eq(y3, i * (x * (h * h) - x3) - y * ((h * h) * h))
    ensures Eq((l * (p - r) - py) * (((w * h) * (w * h)) * (w * h)), y3)
  {
    var u := w * h;
    OverU(p, w, h);
    OverU(py, w, h);
    Scale(p * (w * w), x, h * h);
    Scale(py * ((w * w) * w), y, (h * h) * h);
    Sum(p * (u * u), x * (h * h), r * (u * u), x3);
    assert (p - r) * (u * u) == p * (u * u) - r * (u * u);
    assert l * u == (l * h) * w;
    FieldCongruence.Mul(l * u, i, (p - r) * (u * u), x * (h * h) - x3);
    assert (l * u) * ((p - r) * (u * u)) == (l * (p - r)) * ((u * u) * u) by {
      Exchange(l, u, p - r, u * u);
      assert u * (u * u) == (u * u) * u;
    }
    Sum((l * (p - r)) * ((u * u) * u), i * (x * (h * h) - x3), py * ((u * u) * u), y * ((h * h) * h));
    assert (l * (p - r) - py) * ((u * u) * u) == (l * (p - r)) * ((u * u) * u) - py * ((u * u) * u);
    Sym(y3, i * (x * (h * h) - x3) - y * ((h * h) * h));
    Trans((l * (p - r) - py) * ((u * u) * u), i * (x * (h * h) - x3) - y * ((h * h) * h), y3);
  }

  /** Where the freed formulas hold, the affine point is on the line. */
  lemma Lands(l: int, p: Xy, q: int, r: Xy, w: int, h: int, i: int, x: int, xq: int, y: int, x3: int, y3: int, v: int)
    requires Eq((l * h) * w, i) && AffineOf(p, x, y, w) && Eq(q * (w * w), xq)
    requires Eq(x3, i * i - x * (h * h) - xq * (h * h)) && Eq(y3, i * (x * (h * h) - x3) - y * ((h * h) * h))
    requires AffineOf(r, x3, y3, w * h) && Eq((w * h) * v, 1)
    ensures OnLine(l, p, q, r)
  {
    var u := w * h;
    LineX(l, p.x, q, w, h, i, x, xq, x3);
    LineY(l, p.x, p.y, r.x, w, h, i, x, y, x3, y3);
    UnitProduct(u, v, u, v);
    UnitProduct(u * u, v * v, u, v);
    Sym((l * l - p.x - q) * (u * u), x3);
    Trans(r.x * (u * u), x3, (l * l - p.x - q) * (u * u));
    Cancel(r.x, l * l - p.x - q, u * u, v * v);
    var e := l * (p.x - r.x) - p.y;
    Sym(e * ((u * u) * u), y3);
    Trans(r.y * ((u * u) * u), y3, e * ((u * u) * u));
    Cancel(r.y, e, (u * u) * u, (v * v) * v);
  }

  lemma SameDenominator(p: Xy, x: int, y: int, u: int, w: int)
    requires AffineOf(p, x, y, u) && Eq(u, w)
    ensures AffineOf(p, x, y, w)
  {
    Power2(u, w);
    Scale(u * u, w * w, p.x);
    Scale((u * u) * u, (w * w) * w, p.y);
    Sym(p.x * (u * u), p.x * (w * w));
    Sym(p.y * ((u * u) * u), p.y * ((w * w) * w));
    Trans(p.x * (w * w), p.x * (u * u), x);
    Trans(p.y * ((w * w) * w), p.y * ((u * u) * u), y);
  }

  lemma UnitOf(u: int, w: int, v: int)
    requires Eq(u, w) && Eq(u * v, 1)
    ensures Eq(w * v, 1)
  {
    Scale(u, w, v);
    Sym(u * v, w * v);
    Trans(w * v, u * v, 1);
  }

  lemma ChordFormulas(a: Jac, h: nat, i: nat)
    ensures var r := AddWith(a, h, i);
            && Eq(r.x, i * i - a.x * (h * h) - (h + a.x) * (h * h))
            && Eq(r.y, i * (a.x * (h * h) - r.x) - a.y * ((h * h) * h))
  {
    var r := AddWith(a, h, i);
    AddMeans(a, h, i);
    ChordShapes(a.x, a.y, h, i, r.x);
  }

  lemma ChordShapes(x: int, y: int, h: int, i: int, r: int)
    ensures i * i - 2 * (x * (h * h)) - h * (h * h) == i * i - x * (h * h) - (h + x) * (h * h)
    ensures (x * (h * h) - r) * i - (h * (h * h)) * y == i * (x * (h * h) - r) - y * ((h * h) * h)
  {
    var q := h * h;
    Distribute(h, x, q);
    Turn(x * q - r, i);
    Turn(h, q);
    Turn(h * q, y);
  }

  lemma Distribute(a: int, b: int, c: int)
    ensures (a + b) * c == a * c + b * c
  {
  }

  lemma Turn(a: int, b: int)
    ensures a * b == b * a
  {
  }

  lemma Doubled(p: int, y: int, u: int)
    requires Eq(p * u, y)
    ensures Eq((2 * p) * u, 2 * y)
  {
    Scale(p * u, y, 2);
    assert (2 * p) * u == 2 * (p * u);
  }

  /** The factor of a product that is a unit is not zero. */
  lemma NotZero(m: int, u: int, h: int, one: int, k: int)
    requires Eq(m * u, h) && one == h * k && Eq(one, 1)
    ensures !Eq(m, 0)
  {
    if Eq(m, 0) {
      Scale(m, 0, u);
      Sym(m * u, h);
      Trans(h, m * u, 0);
      Scale(h, 0, k);
      Sym(one, 1);
      Trans(1, one, 0);
      Unique(1, 0);
      assert false;
    }
  }

  /** Addition follows the chord: with p and q the affine forms of a and d, the sum
      over the common denominator is what the chord through them leads to. */
  lemma AddIsChord(a: Jac, d: Jac, p: Xy, q: Xy, r: Xy, v: int)
    requires AffineOf(p, a.x, a.y, a.z * d.z) && AffineOf(q, d.x, d.y, d.z)
    requires var s := AddGe(a, Xy(d.x, d.y));
             AffineOf(r, s.x, s.y, s.z * d.z) && Eq((s.z * d.z) * v, 1)
    ensures Chord(p, q, r)
  {
    var b := Xy(d.x, d.y);
    var h, i, s, w := H(a, b), I(a, b), AddGe(a, b), a.z * d.z;
    ChordFormulas(a, h, i);
    AddMeans(a, h, i);
    SumDenominator(s, a.z, d.z, h, r, v);
    HMeans(a, b);
    IMeans(a, b);
    Differences(a, d, h, i, p, q);
    if Eq(q.x - p.x, 0) {
      NotZero(q.x - p.x, w * w, h, (w * h) * v, v * w);
    }
    forall l: int | SlopeOf(l, q.x - p.x, q.y - p.y) ensures OnLine(l, p, q.x, r) {
      Slope(l, q.x - p.x, q.y - p.y, w, h, i);
      Lands(l, p, q.x, r, w, h, i, a.x, h + a.x, a.y, s.x, s.y, v);
    }
  }

  lemma SumDenominator(s: Jac, z: int, dz: int, h: int, r: Xy, v: int)
    requires Eq(s.z, z * h) && AffineOf(r, s.x, s.y, s.z * dz) && Eq((s.z * dz) * v, 1)
    ensures AffineOf(r, s.x, s.y, (z * dz) * h) && Eq(((z * dz) * h) * v, 1)
  {
    Scale(s.z, z * h, dz);
    assert (z * h) * dz == (z * dz) * h;
    SameDenominator(r, s.x, s.y, s.z * dz, (z * dz) * h);
    UnitOf(s.z * dz, (z * dz) * h, v);
  }

  lemma Differences(a: Jac, d: Jac, h: int, i: int, p: Xy, q: Xy)
    requires AffineOf(p, a.x, a.y, a.z * d.z) && AffineOf(q, d.x, d.y, d.z)
    requires Eq(h, d.x * (a.z * a.z) - a.x) && Eq(i, d.y * ((a.z * a.z) * a.z) - a.y)
    ensures var w := a.z * d.z;
            && Eq((q.x - p.x) * (w * w), h) && Eq((q.y - p.y) * ((w * w) * w), i)
            && Eq(q.x * (w * w), h + a.x)
  {
    var w := a.z * d.z;
    Common(q, d.x, d.y, a.z, d.z, w);
    Difference(q.x, p.x, w * w, d.x * (a.z * a.z), a.x, h);
    Difference(q.y, p.y, (w * w) * w, d.y * ((a.z * a.z) * a.z), a.y, i);
    Sym(h, d.x * (a.z * a.z) - a.x);
    Refl(a.x);
    Sum(d.x * (a.z * a.z) - a.x, h, a.x, a.x);
    Trans(q.x * (w * w), d.x * (a.z * a.z), h + a.x);
  }

  // ---- comparing x coordinates ----

  /** Multiplying by the square of z instead of dividing by it. */
  lemma CrossMultiplied(px: nat, xr: nat, x: nat, z: nat)
    requires Fermat() && 0 < z < P && px < P && xr < P && x < P && Eq(px * (z * z), x)
    ensures FMul(FMul(z, z), xr) == x <==> px == xr
  {
    var v := Invertible(z);
    var r := FMul(FMul(z, z), xr);
    UnitProduct(z, v, z, v);
    MulMeans(z, z, z, z);
    MulMeans(FMul(z, z), xr, z * z, xr);
    assert (z * z) * xr == xr * (z * z);
    if r == x {
      Trans(px * (z * z), x, xr * (z * z));
      Cancel(px, xr, z * z, v * v);
      Unique(px, xr);
    } else if px == xr {
      Trans(r, px * (z * z), x);
      Unique(r, x);
    }
  }

  // ---- the tangent ----

  lemma DoubleMeans(a: Jac)
    ensures var h, i, r := 2 * a.y, 3 * (a.x * a.x), DoubleJ(a);
            && Eq(r.x, i * i - a.x * (h * h) - a.x * (h * h))
            && Eq(r.y, i * (a.x * (h * h) - r.x) - a.y * ((h * h) * h))
            && Eq(r.z, a.z * h)
  {
    var x, y, h, i, r := a.x, a.y, 2 * a.y, 3 * (a.x * a.x), DoubleJ(a);
    var t1 := FMul(3, FMul(x, x));
    var t2 := FMul(t1, t1);
    var s := FMul(2, FMul(y, y));
    var t4 := FMul(2, FMul(s, s));
    var t3 := FMul(s, x);
    var f, c := 2 * (y * y), (2 * (y * y)) * x;
    MulMeans(x, x, x, x);
    MulMeans(3, FMul(x, x), 3, x * x);
    MulMeans(t1, t1, i, i);
    MulMeans(y, y, y, y);
    MulMeans(2, FMul(y, y), 2, y * y);
    MulMeans(s, s, f, f);
    MulMeans(2, FMul(s, s), 2, f * f);
    MulMeans(s, x, f, x);
    Scale(t3, c, 4);
    Scale(t3, c, 6);
    SubMeans(t2, 4 * t3, i * i, 4 * c);
    SubMeans(6 * t3, t2, 6 * c, i * i);
    MulMeans(t1, FSub(6 * t3, t2), i, 6 * c - i * i);
    SubMeans(FMul(t1, FSub(6 * t3, t2)), t4, i * (6 * c - i * i), 2 * (f * f));
    MulMeans(a.z, y, a.z, y);
    MulMeans(2, FMul(a.z, y), 2, a.z * y);
    Shapes(x, y, a.z);
    Tidy(r.x, r.y, i, c, 2 * (f * f));
  }

  lemma Shapes(x: int, y: int, z: int)
    ensures x * ((2 * y) * (2 * y)) == 2 * ((2 * (y * y)) * x)
    ensures y * (((2 * y) * (2 * y)) * (2 * y)) == 2 * ((2 * (y * y)) * (2 * (y * y)))
    ensures 2 * (z * y) == z * (2 * y)
  {
    var q := y * y;
    assert (2 * y) * (2 * y) == 4 * q;
    assert x * (4 * q) == 4 * (q * x);
    assert y * ((4 * q) * (2 * y)) == 8 * (q * q) by {
      assert y * ((4 * q) * (2 * y)) == 8 * (y * (q * y));
      assert y * (q * y) == q * q;
    }
  }

  lemma Tidy(x3: int, y3: int, i: int, c: int, e: int)
    requires Eq(x3, i * i - 4 * c) && Eq(y3, i * (6 * c - i * i) - e)
    ensures Eq(y3, i * (2 * c - x3) - e)
  {
    Refl(2 * c);
    Sum(2 * c, 2 * c, x3, i * i - 4 * c);
    Scale(2 * c - x3, 6 * c - i * i, i);
    Refl(e);
    Sum(i * (2 * c - x3), i * (6 * c - i * i), e, e);
    Sym(i * (2 * c - x3) - e, i * (6 * c - i * i) - e);
    Trans(y3, i * (6 * c - i * i) - e, i * (2 * c - x3) - e);
  }

  lemma SlopeShapes(l: int, y: int, c: int, w: int)
    ensures (y * c) * ((2 * l) * w) == (l * (2 * y)) * (c * w)
  {
    Exchange(y, c, 2 * l, w);
    assert y * (2 * l) == l * (2 * y);
  }

  lemma SquareShapes(x: int, w: int)
    ensures (3 * (x * x)) * (((w * w) * w) * w) == 3 * ((x * (w * w)) * (x * (w * w)))
  {
    var w2 := w * w;
    assert (w2 * w) * w == w2 * w2;
    Exchange(x, w2, x, w2);
    assert (3 * (x * x)) * (w2 * w2) == 3 * ((x * x) * (w2 * w2));
  }

  /** The slope of the tangent, freed of denominators. */
  lemma TangentSlope(l: int, p: Xy, x: int, y: int, w: int)
    requires Eq(l * (2 * p.y), 3 * (p.x * p.x)) && AffineOf(p, x, y, w)
    ensures Eq((l * (2 * y)) * w, 3 * (x * x))
  {
    var w2 := w * w;
    var w3 := w2 * w;
    Scale(p.y * w3, y, (2 * l) * w);
    Scale(l * (2 * p.y), 3 * (p.x * p.x), w3 * w);
    Power2(p.x * w2, x);
    Scale((p.x * w2) * (p.x * w2), x * x, 3);
    SlopeShapes(l, p.y, w3, w);
    SlopeShapes(l, y, 1, w);
    SquareShapes(p.x, w);
    Sym((p.y * w3) * ((2 * l) * w), (l * (2 * y)) * w);
    Trans((l * (2 * y)) * w, (l * (2 * p.y)) * (w3 * w), (3 * (p.x * p.x)) * (w3 * w));
    Trans((l * (2 * y)) * w, (3 * (p.x * p.x)) * (w3 * w), 3 * (x * x));
  }

  /** Doubling follows the tangent. */
  lemma DoubleIsTangent(a: Jac, p: Xy, r: Xy, v: int)
    requires AffineOf(p, a.x, a.y, a.z)
    requires var s := DoubleJ(a);
             AffineOf(r, s.x, s.y, s.z) && Eq(s.z * v, 1)
    ensures Tangent(p, r)
  {
    var h, i, s, w := 2 * a.y, 3 * (a.x * a.x), DoubleJ(a), a.z;
    DoubleMeans(a);
    SameDenominator(r, s.x, s.y, s.z, w * h);
    UnitOf(s.z, w * h, v);
    if Eq(2 * p.y, 0) {
      Doubled(p.y, a.y, (w * w) * w);
      NotZero(2 * p.y, (w * w) * w, h, (w * h) * v, v * w);
    }
    forall l: int | SlopeOf(l, 2 * p.y, 3 * (p.x * p.x)) ensures OnLine(l, p, p.x, r) {
      TangentSlope(l, p, a.x, a.y, w);
      Lands(l, p, p.x, r, w, h, i, a.x, a.x, a.y, s.x, s.y, v);
    }
  }
}
