/**
 Multiplication and squaring modulo p on ten 26-bit limbs,
 `secp256k1_fe_mul_inner` and `secp256k1_fe_sqr_inner`.
 */
module Field10x26 {
  import opened Arith
  import opened Bits
  import opened Limbs
  import opened FieldReduce
  import opened Convolution

  const B26: nat := 0x400_0000
  const R0: nat := 0x3D10
  const R1: nat := 0x400

  /** 2^260, which is R0 + R1 * 2^26 modulo p. */
  const Q: nat := 16 * TWO256

  /** The largest product of two limbs below 2^30. */
  const SQ: nat := 0x3FFFFFFF * 0x3FFFFFFF

  lemma StepArithmetic(c: int, d: int, lo: int, hi: int, u: int, d1: int, t: int, c1: int)
    requires d + hi == B26 * d1 + u && c + lo + u * R0 == B26 * c1 + t
    ensures t + B26 * (c1 + u * R1) + Q * (B26 * d1) + 16 * P * u == c + lo + Q * (d + hi)
  {
  }

  /** One column: `c += p_k; d += p_(k+10); u = d & M; d >>= 26; c += u * R0;
      t = c & M; c >>= 26; c += u * R1`. No sum leaves 64 bits, and what moves
      from d to c is worth the same modulo p. */
  method Step(c: u64, d: u64, lo: u64, hi: u64) returns (c': u64, d': u64, t: u32, u: u64)
    requires c < 0x80_0000_0000 && d < 0x40_0000_0000 && lo <= 9 * SQ && hi < 0x7F00_0000_0000_0000
    ensures t < B26 && u < B26 && c' < 0x80_0000_0000 && d' <= (d + hi) / B26 < 0x20_0000_0000
    ensures t + B26 * c' + Q * (B26 * d') + 16 * P * u == c + lo + Q * (d + hi)
  {
    c' := c + lo;
    d' := d + hi;
    u := d' % B26;
    d' := d' / B26;
    c' := c' + u * R0;
    t := c' % B26;
    c' := c' / B26;
    StepArithmetic(c, d, lo, hi, u, d', t, c');
    c' := c' + u * R1;
  }

  /** Each column k turns the worth e[k] of c and d, with its two column sums
      p[k], into the limb t[k] and the worth e[k + 1] one limb higher. */
  ghost predicate Stepwise(e: seq<int>, p: seq<nat>, t: seq<nat>, u: seq<nat>) {
    && |e| == |p| + 1 && |t| == |p| && |u| == |p|
    && forall k :: 0 <= k < |p| ==> t[k] + B26 * e[k + 1] + 16 * P * u[k] == e[k] + p[k]
  }

  lemma {:induction false} Telescoped(e: seq<int>, p: seq<nat>, t: seq<nat>, u: seq<nat>)
    requires Stepwise(e, p, t, u)
    ensures e[0] + Value(p, B26)
         == Value(t, B26) + Power(B26, |p|) * e[|p|] + 16 * P * Value(u, B26)
    decreases |p|
  {
    if p != [] {
      Telescoped(e[1..], p[1..], t[1..], u[1..]);
      Factor(B26, Power(B26, |p| - 1), e[|p|]);
    }
  }

  lemma Factor(b: int, x: int, y: int)
    ensures b * (x * y) == (b * x) * y
  {
  }

  /** The sum of the high columns folded onto the low ones. */
  ghost function FoldedColumns(p: seq<nat>): (f: seq<nat>)
    requires |p| == 19
    ensures |f| == 9 && forall k :: 0 <= k < 9 ==> f[k] == p[k] + Q * p[k + 10]
  {
    seq(9, k requires 0 <= k < 9 && |p| == 19 => p[k] + Q * p[k + 10])
  }

  lemma TenthPower()
    ensures Power(B26, 10) == Q && Power(B26, 9) * 0x40_0000 == TWO256
  {
    ShapeFacts(TEN);
    assert Power(B26, 10) == B26 * Power(B26, 9);
  }

  lemma FoldedColumnsValue(p: seq<nat>)
    requires |p| == 19
    ensures Value(FoldedColumns(p), B26) + Power(B26, 9) * p[9] == Value(p, B26)
  {
    var lo, hi := p[..9], p[10..];
    TenthPower();
    ScaledValue(Q, hi, B26);
    SumValue(lo, Scaled(Q, hi), B26);
    assert Sum(lo, Scaled(Q, hi)) == FoldedColumns(p);
    MiddleColumn(p);
    Spread(Power(B26, 9), p[9], Value(hi, B26));
  }

  lemma MiddleColumn(p: seq<nat>)
    requires |p| == 19
    ensures Value(p, B26) == Value(p[..9], B26) + Power(B26, 9) * (B26 * Value(p[10..], B26) + p[9])
  {
    assert p == p[..9] + p[9..];
    ValueConcat(p[..9], p[9..], B26);
    assert p[9..][1..] == p[10..];
  }

  lemma Spread(w: int, x: int, v: int)
    requires B26 * w == Q
    ensures w * (B26 * v + x) == w * x + Q * v
  {
    assert w * (B26 * v) == (B26 * w) * v;
    assert w * (B26 * v + x) == w * (B26 * v) + w * x;
  }

  // ---- the last limbs ----

  lemma TopArithmetic(c: int, t9: int, d: int, r9: int, c1: int, w: int)
    requires c + d * R0 + t9 == 0x40_0000 * c1 + r9
    requires w * 0x40_0000 == TWO256
    ensures w * r9 + TWO256 * (c1 + d * 0x4000) + 16 * P * (w * d) == w * (t9 + (c + Q * d))
  {
    assert r9 + 0x40_0000 * (c1 + d * 0x4000) + 16 * P * d == t9 + (c + Q * d);
    assert w * (0x40_0000 * (c1 + d * 0x4000)) == (w * 0x40_0000) * (c1 + d * 0x4000);
    assert w * (16 * P * d) == 16 * P * (w * d);
    assert w * (r9 + 0x40_0000 * (c1 + d * 0x4000) + 16 * P * d)
        == w * r9 + w * (0x40_0000 * (c1 + d * 0x4000)) + w * (16 * P * d);
  }

  /** `c += d * R0 + t9; r9 = c & (M >> 4); c >>= 22; c += d * (R1 << 4)`. */
  method Top(c: u64, d: u64, t9: u32) returns (r9: u32, c': u64, ghost w: nat)
    requires c < 0x80_0000_0000 && d <= 0x400_0800 && t9 < B26
    ensures r9 < 0x40_0000 && c' < 0x101_0000_0000 && w == Power(B26, 9)
    ensures w * r9 + TWO256 * c' + 16 * P * (w * d) == w * (t9 + (c + Q * d))
  {
    c' := c + (d * R0 + t9);
    r9 := c' % 0x40_0000;
    c' := c' / 0x40_0000;
    TenthPower();
    w := Power(B26, 9);
    TopArithmetic(c, t9, d, r9, c', w);
    c' := c' + d * (R1 * 16);
  }

  lemma BottomArithmetic(c: int, t0: int, t1: int, t2: int, q0: int, r0: int, q1: int, r1: int)
    requires 0 <= c < 0x101_0000_0000 && 0 <= t0 < B26 && 0 <= t1 < B26 && 0 <= t2 < B26
    requires c * 0x3D1 + t0 == q0 * B26 + r0 && q0 + (c * 0x40 + t1) == q1 * B26 + r1
    requires 0 <= r0 < B26 && 0 <= r1 < B26
    ensures 0 <= q1 && q1 + t2 <= 2 * (B26 - 1)
    ensures r0 + B26 * (r1 + B26 * (q1 + t2)) == t0 + B26 * (t1 + B26 * t2) + FOLD * c
  {
  }

  /** The three lowest limbs take up what is above bit 256. */
  method Bottom(c: u64, t0: u32, t1: u32, t2: u32) returns (r0: u32, r1: u32, r2: u32)
    requires c < 0x101_0000_0000 && t0 < B26 && t1 < B26 && t2 < B26
    ensures r0 < B26 && r1 < B26 && r2 <= 2 * (B26 - 1)
    ensures r0 + B26 * (r1 + B26 * r2) == t0 + B26 * (t1 + B26 * t2) + FOLD * c
  {
    assert R0 / 16 == 0x3D1 && R1 / 16 == 0x40;
    var d: u64 := c * (R0 / 16) + t0;
    DivMod(d, B26);
    r0 := d % B26;
    ghost var q0 := d / B26;
    d := d / B26;
    d := d + (c * (R1 / 16) + t1);
    DivMod(d, B26);
    r1 := d % B26;
    d := d / B26;
    BottomArithmetic(c, t0, t1, t2, q0, r0, d, r1);
    d := d + t2;
    r2 := d;
  }

  // ---- all columns ----

  /** Column sums of operands with limbs below 2^30 and a top limb below 2^26. */
  ghost predicate ColumnSums(p: seq<nat>) {
    && |p| == 19 && (forall k :: 0 <= k < 10 ==> p[k] <= 9 * SQ)
    && (forall k :: 10 <= k < 19 ==> p[k] < 0x7F00_0000_0000_0000) && p[18] <= 0x3FFFFFF * 0x3FFFFFF
  }

  /** What the output looks like: r[2] below 2^27, r[9] below 2^22, the rest below 2^26. */
  ghost predicate Output(r: seq<nat>) {
    && |r| == 10 && r[2] <= 2 * (B26 - 1) && r[9] < 0x40_0000
    && forall i :: 0 <= i < 9 && i != 2 ==> r[i] < B26
  }

  lemma ThreeLimbs(x: nat, y: nat, z: nat, m: seq<nat>)
    ensures Value([x, y, z] + m, B26) == x + B26 * (y + B26 * (z + B26 * Value(m, B26)))
  {
    assert ([x, y, z] + m)[1..] == [y, z] + m;
    assert ([y, z] + m)[1..] == [z] + m;
    assert ([z] + m)[1..] == m;
    assert Value([z] + m, B26) == z + B26 * Value(m, B26);
    assert Value([y, z] + m, B26) == y + B26 * Value([z] + m, B26);
  }

  lemma LowLimbs(x: seq<nat>, y: seq<nat>, m: seq<nat>, c: nat)
    requires |x| == |y| == 3
    requires x[0] + B26 * (x[1] + B26 * x[2]) == y[0] + B26 * (y[1] + B26 * y[2]) + FOLD * c
    ensures Value(x + m, B26) == Value(y + m, B26) + FOLD * c
  {
    ThreeLimbs(x[0], x[1], x[2], m);
    ThreeLimbs(y[0], y[1], y[2], m);
    assert x == [x[0], x[1], x[2]] && y == [y[0], y[1], y[2]];
  }

  lemma TopLimbValue(s: seq<nat>, r9: nat)
    requires |s| == 9
    ensures Value(s + [r9], B26) == Value(s, B26) + Power(B26, 9) * r9
  {
    ValueConcat(s, [r9], B26);
    assert [r9][1..] == [];
  }

  lemma Balance(vr: int, vs: int, vt: int, vf: int, vu: int, vp: int, w: int, r9: int, t9: int,
                c: int, d: int, e9: int, p9: int, d0: int)
    requires w * B26 == Q && p9 == B26 * d0 + t9
    requires vr == vs + w * r9 && vs == vt + FOLD * c
    requires w * r9 + TWO256 * c + 16 * P * (w * d) == w * (t9 + e9)
    requires Q * d0 + vf == vt + w * e9 + 16 * P * vu
    requires vf + w * p9 == vp
    ensures vr == vp - P * (c + 16 * (w * d) + 16 * vu)
  {
    assert w * (B26 * d0 + t9) == (w * B26) * d0 + w * t9;
    assert w * (t9 + e9) == w * t9 + w * e9;
  }

  lemma ModP(v: int, u: int, k: int)
    requires u == v - P * k
    ensures u % P == v % P
  {
    DivModUnique(u, P, v / P - k, v % P);
  }

  /** The limbs that the columns come to stand for the same residue. */
  lemma Assemble(p: seq<nat>, e: seq<int>, t: seq<nat>, u: seq<nat>, low: seq<nat>, t9: nat, d0: nat,
                 w: nat, r9: nat, c: nat, d: nat)
    requires |p| == 19 && Stepwise(e, FoldedColumns(p), t, u) && |low| == 3
    requires p[9] == B26 * d0 + t9 && e[0] == Q * d0 && w == Power(B26, 9)
    requires w * r9 + TWO256 * c + 16 * P * (w * d) == w * (t9 + e[9])
    requires low[0] + B26 * (low[1] + B26 * low[2]) == t[0] + B26 * (t[1] + B26 * t[2]) + FOLD * c
    ensures Value(low + t[3..] + [r9], B26) % P == Value(p, B26) % P
  {
    var f := FoldedColumns(p);
    Telescoped(e, f, t, u);
    FoldedColumnsValue(p);
    LowLimbs(low, t[..3], t[3..], c);
    assert t[..3] + t[3..] == t;
    var s := low + t[3..];
    TopLimbValue(s, r9);
    TenthPower();
    Balance(Value(s + [r9], B26), Value(s, B26), Value(t, B26), Value(f, B26), Value(u, B26), Value(p, B26),
            w, r9, t9, c, d, e[9], p[9], d0);
    ModP(Value(p, B26), Value(s + [r9], B26), c + 16 * (w * d) + 16 * Value(u, B26));
  }

  /** What has happened in the columns so far. */
  datatype Trace = Trace(e: seq<int>, t: seq<nat>, u: seq<nat>)

  /** Columns 0 to k - 1 are done, and c and d are worth e[k]. */
  ghost predicate Progress(p: seq<nat>, k: nat, c: nat, d: nat, tr: Trace)
    requires |p| == 19 && k <= 9
  {
    && |tr.e| == k + 1 && tr.e[k] == c + Q * d && c < 0x80_0000_0000 && d < 0x40_0000_0000
    && Stepwise(tr.e, FoldedColumns(p)[..k], tr.t, tr.u)
  }

  lemma Advance(p: seq<nat>, k: nat, c: nat, d: nat, tr: Trace, c': nat, d': nat, t: nat, u: nat)
    requires |p| == 19 && k < 9 && Progress(p, k, c, d, tr) && c' < 0x80_0000_0000 && d' < 0x40_0000_0000
    requires t + B26 * c' + Q * (B26 * d') + 16 * P * u == c + p[k] + Q * (d + p[k + 10])
    ensures Progress(p, k + 1, c', d', Trace(tr.e + [c' + Q * d'], tr.t + [t], tr.u + [u]))
  {
    var f := FoldedColumns(p);
    assert f[..k + 1] == f[..k] + [p[k] + Q * p[k + 10]];
    Extend(tr, f[..k], c' + Q * d', p[k] + Q * p[k + 10], t, u);
  }

  lemma Extend(tr: Trace, p: seq<nat>, e: int, x: nat, t: nat, u: nat)
    requires Stepwise(tr.e, p, tr.t, tr.u) && t + B26 * e + 16 * P * u == tr.e[|p|] + x
    ensures Stepwise(tr.e + [e], p + [x], tr.t + [t], tr.u + [u])
  {
  }

  method ColumnStep(p: seq<u64>, k: nat, c: u64, d: u64, ghost tr: Trace)
      returns (c': u64, d': u64, t: u32, ghost tr': Trace)
    requires ColumnSums(p) && k < 9 && Progress(p, k, c, d, tr)
    ensures Progress(p, k + 1, c', d', tr') && t < B26 && d' <= (d + p[k + 10]) / B26
    ensures tr'.t == tr.t + [t] && tr'.e[0] == tr.e[0]
  {
    var u;
    c', d', t, u := Step(c, d, p[k], p[k + 10]);
    Advance(p, k, c, d, tr, c', d', t, u);
    tr' := Trace(tr.e + [c' + Q * d'], tr.t + [t], tr.u + [u]);
  }

  /** Columns 0 to 8, one after the other. */
  method AllColumns(p: seq<u64>, c0: u64, d0: u64) returns (c: u64, d: u64, t: seq<u32>, ghost tr: Trace)
    requires ColumnSums(p) && c0 == 0 && d0 < 0x40_0000_0000
    ensures Progress(p, 9, c, d, tr) && tr.t == t && tr.e[0] == Q * d0 && d <= 0x400_0800
    ensures forall i :: 0 <= i < 9 ==> t[i] < B26
  {
    c, d := c0, d0;
    tr := Trace([Q * d], [], []);
    var t0, t1, t2, t3, t4, t5, t6, t7, t8;
    c, d, t0, tr := ColumnStep(p, 0, c, d, tr);
    c, d, t1, tr := ColumnStep(p, 1, c, d, tr);
    c, d, t2, tr := ColumnStep(p, 2, c, d, tr);
    c, d, t3, tr := ColumnStep(p, 3, c, d, tr);
    c, d, t4, tr := ColumnStep(p, 4, c, d, tr);
    c, d, t5, tr := ColumnStep(p, 5, c, d, tr);
    c, d, t6, tr := ColumnStep(p, 6, c, d, tr);
    c, d, t7, tr := ColumnStep(p, 7, c, d, tr);
    c, d, t8, tr := ColumnStep(p, 8, c, d, tr);
    t := [t0, t1, t2, t3, t4, t5, t6, t7, t8];
  }

  lemma Assembled(p: seq<nat>, tr: Trace, t: seq<nat>, t9: nat, d0: nat, c: nat, d: nat, w: nat,
                  r0: nat, r1: nat, r2: nat, r9: nat, c': nat, r: seq<nat>)
    requires |p| == 19 && Progress(p, 9, c, d, tr) && tr.t == t && tr.e[0] == Q * d0 && p[9] == B26 * d0 + t9
    requires w == Power(B26, 9) && w * r9 + TWO256 * c' + 16 * P * (w * d) == w * (t9 + (c + Q * d))
    requires |t| == 9 && r0 + B26 * (r1 + B26 * r2) == t[0] + B26 * (t[1] + B26 * t[2]) + FOLD * c'
    requires r == [r0, r1, r2, t[3], t[4], t[5], t[6], t[7], t[8], r9]
    ensures Value(r, B26) % P == Value(p, B26) % P
  {
    var low := [r0, r1, r2];
    assert r == low + t[3..] + [r9];
    assert FoldedColumns(p)[..9] == FoldedColumns(p);
    Assemble(p, tr.e, t, tr.u, low, t9, d0, w, r9, c', d);
  }

  /** The body that multiplication and squaring share, from the column sums on. */
  method FoldColumns(p: seq<u64>) returns (r: seq<nat>)
    requires ColumnSums(p)
    ensures Output(r) && Value(r, B26) % P == Value(p, B26) % P
  {
    DivMod(p[9], B26);
    var t9: u32 := p[9] % B26;
    var d0: u64 := p[9] / B26;
    var c, d, t, tr := AllColumns(p, 0, d0);
    var r9, c', w := Top(c, d, t9);
    var r0, r1, r2 := Bottom(c', t[0], t[1], t[2]);
    r := [r0, r1, r2, t[3], t[4], t[5], t[6], t[7], t[8], r9];
    Assembled(p, tr, t, t9, d0, c, d, w, r0, r1, r2, r9, c', r);
  }
}
