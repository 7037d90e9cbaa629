/**
 The curve in plain integers, and that chords and tangents do not leave it.
 */
module CurveEquation {
  import opened FieldReduce
  import opened FieldPower
  import opened FieldCongruence
  import opened Jacobian
  import opened PubkeyCodec

  /** y^2 = x^3 + 7 modulo p. */
  ghost predicate Equation(x: int, y: int) {
    Eq(y * y, x * (x * x) + 7)
  }

  /** The points that are accepted are those of the equation. */
  lemma OnCurveMeans(x: nat, y: nat)
    requires x < P && y < P
    ensures OnCurve(x, y) <==> Equation(x, y)
  {
    var c := FMul(x, FMul(x, x));
    OfFMul(y, y);
    MulMeans(x, x, x, x);
    MulMeans(x, FMul(x, x), x, x * x);
    CurveMeans(x, x * (x * x));
    if OnCurve(x, y) {
      Sym(FMul(y, y), y * y);
      Trans(y * y, Curve(x), x * (x * x) + 7);
    } else if Equation(x, y) {
      Trans(FMul(y, y), y * y, x * (x * x) + 7);
      Sym(Curve(x), x * (x * x) + 7);
      Trans(FMul(y, y), x * (x * x) + 7, Curve(x));
      Unique(FMul(y, y), Curve(x));
    }
  }

  /** The generator's coordinates and the products that put it on the curve. */
  const GX: nat := 0x79be667e_f9dcbbac_55a06295_ce870b07_029bfcdb_2dce28d9_59f2815b_16f81798
  const GY: nat := 0x483ada77_26a3c465_5da4fbfc_0e1108a8_fd17b448_a6855419_9c47d08f_fb10d4b8
  const GX2: nat := 0x8550e7d2_38fcf308_6ba9adcf_0fb52a9d_e3652194_d06cb5bb_38d50229_b854fc49
  const GX3: nat := 0x4866d6a5_ab41ab2c_6bcc57cc_d3735da5_f16f80a5_48e5e20a_44e4e9b8_118c26eb

  lemma GeneratorProducts()
    ensures GX2 == (GX * GX) % P && GX3 == (GX * GX2) % P && (GY * GY) % P == (7 + GX3) % P
  {
  }

  /** `secp256k1_ge_const_g` is on the curve. */
  lemma GeneratorOnCurve()
    ensures OnCurve(GX, GY)
  {
    GeneratorProducts();
    FMulMod(GX, GX);
    FMulMod(GX, GX2);
    FMulMod(GY, GY);
  }

  lemma CurveMeans(x: nat, c: int)
    requires Eq(FMul(x, FMul(x, x)), c)
    ensures Eq(Curve(x), c + 7)
  {
    var f := FMul(x, FMul(x, x));
    Reduces(7 + f);
    Refl(7);
    Sum(7, 7, f, c);
    Trans(Curve(x), 7 + f, 7 + c);
  }

  // ---- the line as a cubic ----

  /** x^3 + 7 less the square of the line l x + c. */
  ghost function Cubic(x: int, l: int, c: int): int {
    x * (x * x) + 7 - (l * x + c) * (l * x + c)
  }

  lemma SquareOfSum(u: int, c: int)
    ensures (u + c) * (u + c) == u * u + 2 * (u * c) + c * c
  {
  }

  /** The square of the line, in powers of x. */
  lemma LineSquared(x: int, l: int, c: int)
    ensures (l * x + c) * (l * x + c) == (l * l) * (x * x) + 2 * (l * c) * x + c * c
  {
    SquareOfSum(l * x, c);
    Exchange(l, x, l, x);
    assert (l * x) * c == (l * c) * x;
  }

  /** The product of three differences, in powers of x. */
  lemma ThreeRoots(x: int, s: int, m: int, t: int)
    ensures (x * x - s * x + m) * (x - t)
         == x * (x * x) - (s + t) * (x * x) + (m + s * t) * x - m * t
  {
    var q := x * x;
    assert (q - s * x + m) * (x - t) == (q - s * x + m) * x - (q - s * x + m) * t;
    assert (q - s * x + m) * x == x * q - s * q + m * x;
    assert (q - s * x + m) * t == t * q - (s * t) * x + m * t;
    assert (s + t) * q == s * q + t * q;
    assert (m + s * t) * x == m * x + (s * t) * x;
  }

  /** The remainder of the cubic divided by the three roots. */
  ghost function Slope1(a: int, b: int, l: int, c: int): int {
    -2 * (l * c) - (a * b + (a + b) * (l * l - a - b))
  }

  ghost function Rest(a: int, b: int, l: int, c: int): int {
    7 - c * c + (a * b) * (l * l - a - b)
  }

  lemma Division(x: int, a: int, b: int, l: int, c: int)
    ensures Cubic(x, l, c)
         == (x * x - (a + b) * x + a * b) * (x - (l * l - a - b)) + Slope1(a, b, l, c) * x + Rest(a, b, l, c)
  {
    var s, m, t := a + b, a * b, l * l - a - b;
    LineSquared(x, l, c);
    ThreeRoots(x, s, m, t);
    assert s + t == l * l;
    assert Slope1(a, b, l, c) * x == -(2 * (l * c) * x) - (m + s * t) * x;
  }

  lemma TwoFactors(x: int, a: int, b: int)
    ensures x * x - (a + b) * x + a * b == (x - a) * (x - b)
  {
    assert (x - a) * (x - b) == (x - a) * x - (x - a) * b;
    assert (x - a) * x == x * x - a * x;
    assert (x - a) * b == x * b - a * b;
    assert (a + b) * x == a * x + b * x;
  }

  /** At a root only the remainder is left. */
  lemma AtRoot(x: int, a: int, b: int, l: int, c: int)
    requires x == a || x == b || x == l * l - a - b
    ensures Cubic(x, l, c) == Slope1(a, b, l, c) * x + Rest(a, b, l, c)
  {
    Division(x, a, b, l, c);
    TwoFactors(x, a, b);
    NoProduct(x * x - (a + b) * x + a * b, x, a, b, l * l - a - b);
  }

  lemma NoProduct(q: int, x: int, a: int, b: int, t: int)
    requires q == (x - a) * (x - b) && (x == a || x == b || x == t)
    ensures q * (x - t) == 0
  {
    if x == a {
      assert q == 0 * (x - b);
    } else if x == b {
      assert q == (x - a) * 0;
    }
  }

  /** A point of the curve on the line is a zero of the cubic. */
  lemma ZeroOfCubic(x: int, y: int, l: int, c: int)
    requires Equation(x, y) && Eq(y, l * x + c)
    ensures Eq(Cubic(x, l, c), 0)
  {
    var u := l * x + c;
    Power2(y, u);
    Refl(x * (x * x) + 7);
    Sym(y * y, x * (x * x) + 7);
    Trans(x * (x * x) + 7, y * y, u * u);
    Sum(x * (x * x) + 7, u * u, u * u, u * u);
  }

  /** And the other way round, for the mirrored point too. */
  lemma CubicZero(x: int, y: int, l: int, c: int)
    requires Eq(Cubic(x, l, c), 0) && Eq(y, -(l * x + c))
    ensures Equation(x, y)
  {
    var u := l * x + c;
    Power2(y, -u);
    assert (-u) * (-u) == u * u;
    Refl(u * u);
    Sum(Cubic(x, l, c), 0, u * u, u * u);
    Sym(x * (x * x) + 7, u * u);
    Trans(y * y, u * u, x * (x * x) + 7);
  }

  /** With the remainder zero the third root is a zero of the cubic. */
  lemma ThirdZero(a: int, b: int, l: int, c: int)
    requires Eq(Slope1(a, b, l, c), 0) && Eq(Cubic(a, l, c), 0)
    ensures Eq(Cubic(l * l - a - b, l, c), 0)
  {
    var t, f, g := l * l - a - b, Slope1(a, b, l, c), Rest(a, b, l, c);
    AtRoot(a, a, b, l, c);
    AtRoot(t, a, b, l, c);
    Scale(f, 0, a);
    Scale(f, 0, t);
    Sum(Cubic(a, l, c), 0, f * a, 0 * a);
    Sum(f * t, 0 * t, g, 0);
  }

  lemma ChordRemainder(a: int, b: int, l: int, c: int, v: int)
    requires Eq((b - a) * v, 1) && Eq(Cubic(a, l, c), 0) && Eq(Cubic(b, l, c), 0)
    ensures Eq(Slope1(a, b, l, c), 0)
  {
    var f := Slope1(a, b, l, c);
    AtRoot(a, a, b, l, c);
    AtRoot(b, a, b, l, c);
    Sum(Cubic(b, l, c), 0, Cubic(a, l, c), 0);
    assert f * b - f * a == f * (b - a);
    assert 0 * (b - a) == 0;
    Cancel(f, 0, b - a, v);
  }

  lemma TangentRemainder(a: int, y: int, l: int)
    requires Eq(l * (2 * y), 3 * (a * a))
    ensures Eq(Slope1(a, a, l, y - l * a), 0)
  {
    var c := y - l * a;
    assert l * c == l * y - (l * l) * a by {
      assert l * (y - l * a) == l * y - l * (l * a);
      assert l * (l * a) == (l * l) * a;
    }
    assert (a + a) * (l * l - a - a) == 2 * ((l * l) * a) - 4 * (a * a) by {
      assert (a + a) * (l * l - a - a) == (a + a) * (l * l) - (a + a) * (a + a);
      assert (a + a) * (a + a) == 4 * (a * a);
      assert (a + a) * (l * l) == 2 * ((l * l) * a);
    }
    assert Slope1(a, a, l, c) == 3 * (a * a) - l * (2 * y);
    Refl(3 * (a * a));
    Sum(3 * (a * a), 3 * (a * a), l * (2 * y), 3 * (a * a));
  }

  // ---- chords and tangents ----

  lemma OnLineAt(l: int, p: Xy)
    ensures p.y == l * p.x + (p.y - l * p.x)
  {
  }

  /** What the line leads to is on the curve when the cubic vanishes there. */
  lemma Reached(l: int, p: Xy, q: int, r: Xy)
    requires OnLine(l, p, q, r) && Eq(Cubic(l * l - p.x - q, l, p.y - l * p.x), 0)
    ensures Equation(r.x, r.y)
  {
    var t, c := l * l - p.x - q, p.y - l * p.x;
    Refl(p.x);
    Sum(p.x, p.x, r.x, t);
    Scale(p.x - r.x, p.x - t, l);
    Refl(p.y);
    Sum(l * (p.x - r.x), l * (p.x - t), p.y, p.y);
    assert l * (p.x - t) - p.y == -(l * t + c) by { assert l * (p.x - t) == l * p.x - l * t; }
    Trans(r.y, l * (p.x - r.x) - p.y, -(l * t + c));
    CubicZero(t, r.y, l, c);
    Moved(r.x, t, r.y);
  }

  lemma Moved(x: int, t: int, y: int)
    requires Eq(x, t) && Equation(t, y)
    ensures Equation(x, y)
  {
    Mul(x, t, x, t);
    Mul(x, t, x * x, t * t);
    Refl(7);
    Sum(x * (x * x), t * (t * t), 7, 7);
    Sym(x * (x * x) + 7, t * (t * t) + 7);
    Trans(y * y, t * (t * t) + 7, x * (x * x) + 7);
  }

  /** The chord through two points of the curve leads to a point of the curve. */
  lemma ChordStays(p: Xy, q: Xy, r: Xy)
    requires Fermat() && Chord(p, q, r) && Equation(p.x, p.y) && Equation(q.x, q.y)
    ensures Equation(r.x, r.y)
  {
    var m, n := q.x - p.x, q.y - p.y;
    var l := Divide(m, n);
    var v := Divide(m, 1);
    assert v * m == m * v;
    var c := p.y - l * p.x;
    OnLineAt(l, p);
    Refl(p.y);
    ZeroOfCubic(p.x, p.y, l, c);
    SecondPoint(l, p, q);
    ZeroOfCubic(q.x, q.y, l, c);
    ChordRemainder(p.x, q.x, l, c, v);
    ThirdZero(p.x, q.x, l, c);
    Reached(l, p, q.x, r);
  }

  lemma SecondPoint(l: int, p: Xy, q: Xy)
    requires SlopeOf(l, q.x - p.x, q.y - p.y)
    ensures Eq(q.y, l * q.x + (p.y - l * p.x))
  {
    Sym(l * (q.x - p.x), q.y - p.y);
    Refl(p.y);
    Sum(q.y - p.y, l * (q.x - p.x), p.y, p.y);
    assert l * (q.x - p.x) == l * q.x - l * p.x;
  }

  /** The tangent at a point of the curve leads to a point of the curve. */
  lemma TangentStays(p: Xy, r: Xy)
    requires Fermat() && Tangent(p, r) && Equation(p.x, p.y)
    ensures Equation(r.x, r.y)
  {
    var l := Divide(2 * p.y, 3 * (p.x * p.x));
    var c := p.y - l * p.x;
    OnLineAt(l, p);
    Refl(p.y);
    ZeroOfCubic(p.x, p.y, l, c);
    TangentRemainder(p.x, p.y, l);
    ThirdZero(p.x, p.x, l, c);
    Reached(l, p, p.x, r);
  }
}
