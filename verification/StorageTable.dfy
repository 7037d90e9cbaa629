/**
 `secp256k1_ecmult_odd_multiples_table_storage_var`: the affine odd multiples of a
 point with two inversions, from the z ratios and y coordinates of the additions.
 */
module StorageTable {
  import opened FieldReduce
  import opened FieldPower
  import opened FieldCongruence
  import opened Jacobian

  /** The doubled point without its z, and the start scaled to match it. */
  function Step(d: Jac): Xy {
    Xy(d.x, d.y)
  }

  function Start(a: Jac, d: Jac): Jac {
    var dz := d.z;
    Jac(FMul(a.x, FMul(dz, dz)), FMul(a.y, FMul(FMul(dz, dz), dz)), a.z)
  }

  /** The i-th point of the additions on the isomorphic curve. */
  ghost function Forward(a: Jac, d: Jac, i: nat): Jac {
    if i == 0 then Start(a, d) else AddGe(Forward(a, d, i - 1), Step(d))
  }

  /** The z ratio that belongs to the i-th point. */
  ghost function Ratio(a: Jac, d: Jac, i: nat): nat {
    if i == 0 then d.z else H(Forward(a, d, i - 1), Step(d))
  }

  /** What the first pass stores. */
  ghost function Stored(a: Jac, d: Jac, i: nat): Xy {
    Xy(Ratio(a, d, i), Forward(a, d, i).y)
  }

  /** No addition meets two points of the same x, and the doubled point is finite. */
  ghost predicate Regular(a: Jac, d: Jac, n: nat) {
    && 0 < a.z < P && 0 < d.z < P
    && forall i :: 0 < i < n ==> Ratio(a, d, i) != 0
  }

  lemma {:induction false} ForwardReduced(a: Jac, d: Jac, i: nat, n: nat)
    requires Fermat() && Regular(a, d, n) && i < n
    ensures 0 < Forward(a, d, i).z < P && Forward(a, d, i).y < P && Ratio(a, d, i) < P
    decreases i
  {
    if i > 0 {
      ForwardReduced(a, d, i - 1, n);
      if Forward(a, d, i).z == 0 {
        NoZeroDivisors(Forward(a, d, i - 1).z, Ratio(a, d, i));
      }
    }
  }

  // ---- the backward step ----

  /** zi is the inverse of the i-th point's denominator on the original curve. */
  ghost predicate InverseAt(a: Jac, d: Jac, i: nat, zi: int) {
    Eq(zi * (Forward(a, d, i).z * d.z), 1)
  }

  lemma InverseMoves(zi: int, h: int, z: int, z': int, dz: int, zi': int)
    requires Eq(zi * (z' * dz), 1) && Eq(z', z * h) && Eq(zi', zi * h)
    ensures Eq(zi' * (z * dz), 1)
  {
    Scale(zi', zi * h, z * dz);
    Scale(z', z * h, dz);
    Scale(z' * dz, (z * h) * dz, zi);
    assert (zi * h) * (z * dz) == zi * ((z * h) * dz) by {
      assert h * (z * dz) == (z * h) * dz;
    }
    Sym(zi * (z' * dz), zi * ((z * h) * dz));
    Trans(zi' * (z * dz), zi * ((z * h) * dz), zi * (z' * dz));
    Trans(zi' * (z * dz), zi * (z' * dz), 1);
  }

  /** Dividing by powers of the denominator is multiplying by those of its inverse. */
  lemma Divides(y: int, zi: int, w: int, q: int, r: int)
    requires Eq(zi * w, 1)
    requires Eq(q, y * (zi * zi)) && Eq(r, y * ((zi * zi) * zi))
    ensures Eq(q * (w * w), y) && Eq(r * ((w * w) * w), y)
  {
    Power2(zi * w, 1);
    Exchange(zi, w, zi, w);
    Exchange(zi * zi, w * w, zi, w);
    Quotient(y, zi * zi, w * w, q);
    Quotient(y, (zi * zi) * zi, (w * w) * w, r);
  }

  lemma Quotient(y: int, u: int, v: int, q: int)
    requires Eq(u * v, 1) && Eq(q, y * u)
    ensures Eq(q * v, y)
  {
    Scale(q, y * u, v);
    Unit(y, u, v);
    Trans(q * v, (y * u) * v, y);
  }

  /** `x = d_x - rzr / z^2` on the original curve. */
  lemma RecoversX(px: int, dx: int, dx2: int, h: int, z: int, dz: int, x: int, q: int)
    requires Eq(px, dx2 - q) && Eq(dx2 * (dz * dz), dx) && Eq(h, dx * (z * z) - x)
    requires Eq(q * ((z * dz) * (z * dz)), h)
    ensures Eq(px * ((z * dz) * (z * dz)), x)
  {
    var w2 := (z * dz) * (z * dz);
    SplitDenominator(dx2, z, dz);
    Scale(dx2 * (dz * dz), dx, z * z);
    Scale(px, dx2 - q, w2);
    assert (dx2 - q) * w2 == dx2 * w2 - q * w2;
    Trans(q * w2, h, dx * (z * z) - x);
    Sum(dx2 * w2, dx * (z * z), q * w2, dx * (z * z) - x);
    Trans(px * w2, dx2 * w2 - q * w2, x);
  }

  /** Entry i is the reduced affine form of the i-th point on the original curve. */
  ghost predicate Entry(a: Jac, d: Jac, i: nat, p: Xy) {
    && p.x < P && p.y < P
    && AffineOf(p, Forward(a, d, i).x, Forward(a, d, i).y, Forward(a, d, i).z * d.z)
  }

  lemma InverseNext(a: Jac, d: Jac, i: nat, zi: int)
    requires InverseAt(a, d, i + 1, zi)
    ensures Eq(zi * (FMul(Forward(a, d, i).z, H(Forward(a, d, i), Step(d))) * d.z), 1)
    ensures Ratio(a, d, i + 1) == H(Forward(a, d, i), Step(d))
  {
  }

  /** The entry that one round of the backward pass writes. */
  lemma BackwardStep(a: Jac, d: Jac, i: nat, h: nat, zi: nat, dx2: int, zi': nat, p: Xy)
    requires InverseAt(a, d, i + 1, zi) && h == Ratio(a, d, i + 1)
    requires Eq(dx2 * (d.z * d.z), d.x) && zi' == FMul(zi, h)
    requires p.x == FSub(dx2, FMul(h, FMul(zi', zi'))) && p.y == FMul(Forward(a, d, i).y, FMul(FMul(zi', zi'), zi'))
    ensures InverseAt(a, d, i, zi') && Entry(a, d, i, p)
  {
    InverseNext(a, d, i, zi);
    OneStep(Forward(a, d, i), d, h, zi, dx2, zi', p);
  }

  lemma OneStep(f: Jac, d: Jac, h: nat, zi: nat, dx2: int, zi': nat, p: Xy)
    requires h == H(f, Step(d)) && Eq(zi * (FMul(f.z, h) * d.z), 1)
    requires Eq(dx2 * (d.z * d.z), d.x) && zi' == FMul(zi, h)
    requires p.x == FSub(dx2, FMul(h, FMul(zi', zi'))) && p.y == FMul(f.y, FMul(FMul(zi', zi'), zi'))
    ensures Eq(zi' * (f.z * d.z), 1) && AffineOf(p, f.x, f.y, f.z * d.z)
  {
    HMeans(f, Step(d));
    StepOver(f, d, FMul(f.z, h), h, zi, dx2, zi', p);
  }

  lemma StepOver(f: Jac, d: Jac, next: nat, h: nat, zi: nat, dx2: int, zi': nat, p: Xy)
    requires next == FMul(f.z, h) && Eq(h, d.x * (f.z * f.z) - f.x)
    requires Eq(zi * (next * d.z), 1) && Eq(dx2 * (d.z * d.z), d.x) && zi' == FMul(zi, h)
    requires p.x == FSub(dx2, FMul(h, FMul(zi', zi'))) && p.y == FMul(f.y, FMul(FMul(zi', zi'), zi'))
    ensures Eq(zi' * (f.z * d.z), 1) && AffineOf(p, f.x, f.y, f.z * d.z)
  {
    OfFMul(zi, h);
    OfFMul(f.z, h);
    InverseMoves(zi, h, f.z, next, d.z, zi');
    EntryX(f.x, f.z, d.x, d.z, h, dx2, zi', p.x);
    EntryY(f.y, f.z * d.z, zi', p.y);
  }

  lemma EntryX(x: int, z: int, dx: int, dz: int, h: int, dx2: int, zi: nat, px: int)
    requires Eq(zi * (z * dz), 1) && Eq(dx2 * (dz * dz), dx) && Eq(h, dx * (z * z) - x)
    requires px == FSub(dx2, FMul(h, FMul(zi, zi)))
    ensures Eq(px * ((z * dz) * (z * dz)), x)
  {
    var q := FMul(h, FMul(zi, zi));
    MulMeans(zi, zi, zi, zi);
    MulMeans(h, FMul(zi, zi), h, zi * zi);
    Refl(h * ((zi * zi) * zi));
    Divides(h, zi, z * dz, q, h * ((zi * zi) * zi));
    Refl(dx2);
    Refl(q);
    SubMeans(dx2, q, dx2, q);
    RecoversX(px, dx, dx2, h, z, dz, x, q);
  }

  lemma EntryY(y: int, w: int, zi: nat, py: int)
    requires Eq(zi * w, 1) && py == FMul(y, FMul(FMul(zi, zi), zi))
    ensures Eq(py * ((w * w) * w), y)
  {
    MulMeans(zi, zi, zi, zi);
    MulMeans(FMul(zi, zi), zi, zi * zi, zi);
    MulMeans(y, FMul(FMul(zi, zi), zi), y, (zi * zi) * zi);
    Refl(y * (zi * zi));
    Divides(y, zi, w, y * (zi * zi), py);
  }

  /** `secp256k1_ge_set_gej_zinv`. */
  function SetGejZinv(a: Jac, zi: nat): Xy {
    var zi2 := FMul(zi, zi);
    Xy(FMul(a.x, zi2), FMul(a.y, FMul(zi2, zi)))
  }

  lemma ZinvIsAffine(x: int, y: int, zi: nat, w: int, p: Xy)
    requires Eq(zi * w, 1) && p.x == FMul(x, FMul(zi, zi)) && p.y == FMul(y, FMul(FMul(zi, zi), zi))
    ensures AffineOf(p, x, y, w)
  {
    MulMeans(zi, zi, zi, zi);
    MulMeans(x, FMul(zi, zi), x, zi * zi);
    Refl(x * ((zi * zi) * zi));
    Divides(x, zi, w, p.x, x * ((zi * zi) * zi));
    EntryY(y, w, zi, p.y);
  }

  // ---- the builder ----

  /** `secp256k1_gej_add_ge_var` for distinct x coordinates, with the z ratio. */
  method GejAddGe(a: Jac, b: Xy) returns (r: Jac, rzr: nat)
    requires H(a, b) != 0
    ensures r == AddGe(a, b) && rzr == H(a, b)
  {
    var z12 := FMul(a.z, a.z);
    var u2 := FMul(b.x, z12);
    var s2 := FMul(FMul(b.y, z12), a.z);
    var h := FSub(u2, a.x);
    var i := FSub(s2, a.y);
    var i2 := FMul(i, i);
    var h2 := FMul(h, h);
    var h3 := FMul(h, h2);
    rzr := h;
    var t := FMul(a.x, h2);
    var x := FSub(i2, 2 * t + h3);
    var y := FMul(FSub(t, x), i);
    h3 := FMul(h3, a.y);
    r := Jac(x, FSub(y, h3), FMul(a.z, h));
  }

  lemma StoredUpTo(a: Jac, d: Jac, s: seq<Xy>, t: seq<Xy>, i: nat)
    requires i < |s| == |t| && (forall j :: 0 <= j < i ==> s[j] == Stored(a, d, j))
    requires t == s[i := Stored(a, d, i)]
    ensures forall j :: 0 <= j < i + 1 ==> t[j] == Stored(a, d, j)
  {
  }

  /** The additions: ratios and y coordinates go into the table. */
  method FirstPass(n: nat, pre: array<Xy>, a: Jac, d: Jac) returns (pj: Jac)
    requires 0 < n <= pre.Length && Fermat() && Regular(a, d, n)
    modifies pre
    ensures pj == Forward(a, d, n - 1)
    ensures forall i :: 0 <= i < n ==> pre[i] == Stored(a, d, i)
    ensures forall i :: n <= i < pre.Length ==> pre[i] == old(pre[i])
  {
    var dge := Xy(d.x, d.y);
    var age := SetGejZinv(a, d.z);
    pj := Jac(age.x, age.y, a.z);
    pre[0] := Xy(d.z, pj.y);
    var i := 1;
    while i < n
      invariant 1 <= i <= n && pj == Forward(a, d, i - 1)
      invariant forall j :: 0 <= j < i ==> pre[..][j] == Stored(a, d, j)
      invariant forall j :: n <= j < pre.Length ==> pre[j] == old(pre[j])
    {
      var zr;
      assert Ratio(a, d, i) != 0;
      pj, zr := GejAddGe(pj, dge);
      ghost var was := pre[..];
      pre[i] := Xy(zr, pj.y);
      StoredUpTo(a, d, was, pre[..], i);
      i := i + 1;
    }
  }

  lemma LastInverse(a: Jac, d: Jac, i: nat, n: nat, z: nat, zi: nat)
    requires Fermat() && Regular(a, d, n) && i < n && z == FMul(Forward(a, d, i).z, d.z)
    requires zi < P && (if z == 0 then zi == 0 else FMul(z, zi) == 1)
    ensures InverseAt(a, d, i, zi)
  {
    ForwardReduced(a, d, i, n);
    if z == 0 {
      NoZeroDivisors(Forward(a, d, i).z, d.z);
    }
    InverseOfProduct(Forward(a, d, i).z, d.z, z, zi);
  }

  lemma InverseOfProduct(f: int, dz: nat, z: nat, zi: nat)
    requires z == FMul(f, dz) && FMul(z, zi) == 1
    ensures Eq(zi * (f * dz), 1)
  {
    OfFMul(f, dz);
    OfFMul(z, zi);
    Sym(FMul(z, zi), z * zi);
    Scale(z, f * dz, zi);
    Sym(zi * z, zi * (f * dz));
    assert z * zi == zi * z;
    Trans(zi * (f * dz), zi * z, 1);
  }

  lemma DoubleX(d: Jac, dzi: nat, dx2: nat)
    requires Fermat() && 0 < d.z < P && dzi < P && FMul(d.z, dzi) == 1
    requires dx2 == FMul(FMul(dzi, dzi), d.x)
    ensures Eq(dx2 * (d.z * d.z), d.x)
  {
    OfFMul(d.z, dzi);
    Sym(FMul(d.z, dzi), d.z * dzi);
    assert d.z * dzi == dzi * d.z;
    MulMeans(dzi, dzi, dzi, dzi);
    MulMeans(FMul(dzi, dzi), d.x, dzi * dzi, d.x);
    assert (dzi * dzi) * d.x == d.x * (dzi * dzi);
    Refl(d.x * ((dzi * dzi) * dzi));
    Divides(d.x, dzi, d.z, dx2, d.x * ((dzi * dzi) * dzi));
  }

  /** The builder: entry i is (x / (z dz)^2, y / (z dz)^3) of the i-th point. */
  method OddMultiples(n: nat, pre: array<Xy>, a: Jac)
    requires 0 < n <= pre.Length && Fermat() && Regular(a, DoubleJ(a), n)
    modifies pre
    ensures forall i :: 0 <= i < n ==> Entry(a, DoubleJ(a), i, pre[i])
    ensures forall i :: n <= i < pre.Length ==> pre[i] == old(pre[i])
  {
    Fill(n, pre, a, DoubleJ(a));
  }

  method Fill(n: nat, pre: array<Xy>, a: Jac, d: Jac)
    requires 0 < n <= pre.Length && Fermat() && Regular(a, d, n)
    modifies pre
    ensures forall i :: 0 <= i < n ==> Entry(a, d, i, pre[i])
    ensures forall i :: n <= i < pre.Length ==> pre[i] == old(pre[i])
  {
    var pj := FirstPass(n, pre, a, d);
    pj := pj.(z := FMul(pj.z, d.z));
    var zi := Inverse(pj.z);
    LastInverse(a, d, n - 1, n, pj.z, zi);
    var p := SetGejZinv(pj, zi);
    ZinvIsAffine(pj.x, pj.y, zi, Forward(a, d, n - 1).z * d.z, p);
    var last := pre[n - 1];
    pre[n - 1] := p;
    var dzi := Inverse(d.z);
    var dx2 := FMul(FMul(dzi, dzi), d.x);
    DoubleX(d, dzi, dx2);
    BackwardPass(n, pre, a, d, zi, last, dx2);
  }

  lemma EntriesFrom(a: Jac, d: Jac, s: seq<Xy>, t: seq<Xy>, i: nat, n: nat)
    requires i < n <= |s| && (forall j :: i < j < n ==> Entry(a, d, j, s[j]))
    requires |t| == |s| && t == s[i := t[i]] && Entry(a, d, i, t[i])
    ensures forall j :: i <= j < n ==> Entry(a, d, j, t[j])
  {
    forall j | i <= j < n ensures Entry(a, d, j, t[j]) {
      if j > i {
        assert t[j] == s[j];
      }
    }
  }

  method BackwardPass(n: nat, pre: array<Xy>, a: Jac, d: Jac, zi0: nat, last0: Xy, dx2: nat)
    requires 0 < n <= pre.Length && InverseAt(a, d, n - 1, zi0)
    requires last0 == Stored(a, d, n - 1) && Entry(a, d, n - 1, pre[n - 1])
    requires Eq(dx2 * (d.z * d.z), d.x)
    requires forall j :: 0 <= j < n - 1 ==> pre[j] == Stored(a, d, j)
    modifies pre
    ensures forall j :: 0 <= j < n ==> Entry(a, d, j, pre[j])
    ensures forall j :: n <= j < pre.Length ==> pre[j] == old(pre[j])
  {
    var i, zi, last := n - 1, zi0, last0;
    while i > 0
      invariant 0 <= i < n && InverseAt(a, d, i, zi) && last == Stored(a, d, i)
      invariant forall j :: 0 <= j < i ==> pre[j] == Stored(a, d, j)
      invariant forall j :: i <= j < n ==> Entry(a, d, j, pre[j])
      invariant forall j :: n <= j < pre.Length ==> pre[j] == old(pre[j])
    {
      i := i - 1;
      ghost var before, h := zi, last.x;
      zi := FMul(zi, last.x);
      var zi2 := FMul(zi, zi);
      var zi3 := FMul(zi2, zi);
      var x := FSub(dx2, FMul(last.x, zi2));
      last := pre[i];
      var p := Xy(x, FMul(last.y, zi3));
      BackwardStep(a, d, i, h, before, dx2, zi, p);
      ghost var was := pre[..];
      pre[i] := p;
      EntriesFrom(a, d, was, pre[..], i, n);
    }
  }

  // ---- what the table holds ----

  /** The first entry is the point itself. */
  lemma FirstEntry(a: Jac, d: Jac, p: Xy, v: int)
    requires Entry(a, d, 0, p) && Eq(d.z * v, 1)
    ensures AffineOf(p, a.x, a.y, a.z)
  {
    var dz, z := d.z, a.z;
    MulMeans(dz, dz, dz, dz);
    MulMeans(FMul(dz, dz), dz, dz * dz, dz);
    MulMeans(a.x, FMul(dz, dz), a.x, dz * dz);
    MulMeans(a.y, FMul(FMul(dz, dz), dz), a.y, (dz * dz) * dz);
    SplitDenominator(p.x, dz, z);
    SplitDenominator(p.y, dz, z);
    assert z * dz == dz * z;
    UnitProduct(dz, v, dz, v);
    UnitProduct(dz * dz, v * v, dz, v);
    Trans((p.x * (z * z)) * (dz * dz), Start(a, d).x, a.x * (dz * dz));
    Trans((p.y * ((z * z) * z)) * ((dz * dz) * dz), Start(a, d).y, a.y * ((dz * dz) * dz));
    Cancel(p.x * (z * z), a.x, dz * dz, v * v);
    Cancel(p.y * ((z * z) * z), a.y, (dz * dz) * dz, (v * v) * v);
  }

  /** Each entry is the one before plus the doubled point, by the affine chord law. */
  lemma NextEntry(a: Jac, d: Jac, i: nat, n: nat, p: Xy, q: Xy, r: Xy)
    requires Fermat() && Regular(a, d, n) && i + 1 < n && Entry(a, d, i, p) && Entry(a, d, i + 1, r)
    requires AffineOf(q, d.x, d.y, d.z)
    ensures Chord(p, q, r)
  {
    ForwardReduced(a, d, i + 1, n);
    NextChord(Forward(a, d, i), Forward(a, d, i + 1), d, p, q, r);
  }

  lemma NextChord(f: Jac, g: Jac, d: Jac, p: Xy, q: Xy, r: Xy)
    requires Fermat() && g == AddGe(f, Xy(d.x, d.y)) && 0 < g.z < P && 0 < d.z < P
    requires AffineOf(p, f.x, f.y, f.z * d.z) && AffineOf(r, g.x, g.y, g.z * d.z) && AffineOf(q, d.x, d.y, d.z)
    ensures Chord(p, q, r)
  {
    var u := Invertible(g.z);
    var v := Invertible(d.z);
    UnitProduct(g.z, u, d.z, v);
    AddIsChord(f, d, p, q, r, u * v);
  }

  /** The table in affine terms: it starts at the point, the step q is the tangent
      double of the point, and every entry is the chord sum of the one before and q. */
  lemma TableIsOddMultiples(a: Jac, d: Jac, n: nat, pre: seq<Xy>, q: Xy)
    requires Fermat() && d == DoubleJ(a) && 0 < n <= |pre| && Regular(a, d, n)
    requires forall i :: 0 <= i < n ==> Entry(a, d, i, pre[i])
    requires AffineOf(q, d.x, d.y, d.z)
    ensures AffineOf(pre[0], a.x, a.y, a.z) && Tangent(pre[0], q)
    ensures forall i :: 0 <= i && i + 1 < n ==> Chord(pre[i], q, pre[i + 1])
  {
    var v := Invertible(d.z);
    FirstEntry(a, d, pre[0], v);
    DoubleIsTangent(a, pre[0], q, v);
    forall i | 0 <= i && i + 1 < n ensures Chord(pre[i], q, pre[i + 1]) {
      NextEntry(a, d, i, n, pre[i], q, pre[i + 1]);
    }
  }
}
