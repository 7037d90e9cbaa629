/**
 Points, seen as an arbitrary commutative group of exponent N. The group
 formulas themselves are not modelled: an instance supplies its operations and
 `Laws` states what they have to satisfy.
 */
module CurveGroup {
  import opened Scalars

  datatype Group<!P(==, !new)> = Group(add: (P, P) -> P, neg: P -> P, zero: P, gen: P)

  // Always true. They are the triggers of the group laws: a law is used only
  // where a proof names the points it is to be used on.
  ghost predicate At1<P(!new)>(x: P) { true }
  ghost predicate At2<P(!new)>(x: P, y: P) { true }
  ghost predicate At3<P(!new)>(x: P, y: P, z: P) { true }
  ghost predicate AtMul<P(!new)>(k: int, x: P) { true }

  ghost predicate Laws<P(!new)>(g: Group<P>) {
    && (forall x: P, y: P {:trigger At2(x, y)} :: g.add(x, y) == g.add(y, x))
    && (forall x: P, y: P, z: P {:trigger At3(x, y, z)} ::
          g.add(g.add(x, y), z) == g.add(x, g.add(y, z)))
    && (forall x: P {:trigger At1(x)} :: g.add(x, g.zero) == x && g.add(x, g.neg(x)) == g.zero)
    && (forall k: int, x: P {:trigger AtMul(k, x)} :: k % N == 0 ==> Mul(g, k, x) == g.zero)
  }

  /** Every point other than infinity has order exactly N. */
  ghost predicate PrimeOrder<P(!new)>(g: Group<P>) {
    forall k: int, x: P {:trigger AtMul(k, x)} ::
      Mul(g, k, x) == g.zero && x != g.zero ==> k % N == 0
  }

  /** k times the point p, for any integer k. */
  ghost function Mul<P(!new)>(g: Group<P>, k: int, p: P): P
    decreases Abs(k)
  {
    if k == 0 then g.zero
    else if k > 0 then g.add(Mul(g, k - 1, p), p)
    else g.add(Mul(g, k + 1, p), g.neg(p))
  }

  /** The sum of all ks[i] * ps[i]. */
  ghost function Sum<P(!new)>(g: Group<P>, ks: seq<int>, ps: seq<P>): P
    requires |ks| == |ps|
  {
    if |ks| == 0 then g.zero
    else g.add(Sum(g, ks[..|ks| - 1], ps[..|ps| - 1]), Mul(g, ks[|ks| - 1], ps[|ps| - 1]))
  }

  lemma Comm<P(!new)>(g: Group<P>, x: P, y: P)
    requires Laws(g)
    ensures g.add(x, y) == g.add(y, x)
  {
    assert At2(x, y);
  }

  lemma Assoc<P(!new)>(g: Group<P>, x: P, y: P, z: P)
    requires Laws(g)
    ensures g.add(g.add(x, y), z) == g.add(x, g.add(y, z))
  {
    assert At3(x, y, z);
  }

  lemma Zero<P(!new)>(g: Group<P>, x: P)
    requires Laws(g)
    ensures g.add(x, g.zero) == x && g.add(g.zero, x) == x
    ensures g.add(x, g.neg(x)) == g.zero && g.add(g.neg(x), x) == g.zero
  {
    assert At1(x);
    Comm(g, x, g.zero);
    Comm(g, x, g.neg(x));
  }

  /** x + y + -y is x, and y's inverse is the only one. */
  lemma Cancel<P(!new)>(g: Group<P>, x: P, y: P)
    requires Laws(g)
    ensures g.add(g.add(x, y), g.neg(y)) == x && g.add(g.add(x, g.neg(y)), y) == x
    ensures g.add(x, y) == g.zero ==> x == g.neg(y)
  {
    Assoc(g, x, y, g.neg(y));
    Assoc(g, x, g.neg(y), y);
    Zero(g, y);
    Zero(g, x);
    Zero(g, g.neg(y));
  }

  lemma Shuffle<P(!new)>(g: Group<P>, a: P, b: P, c: P, d: P)
    requires Laws(g)
    ensures g.add(g.add(a, b), g.add(c, d)) == g.add(g.add(a, c), g.add(b, d))
  {
    Assoc(g, a, b, g.add(c, d));
    Assoc(g, b, c, d);
    Comm(g, b, c);
    Assoc(g, c, b, d);
    Assoc(g, a, c, g.add(b, d));
  }

  lemma MulStep<P(!new)>(g: Group<P>, k: int, p: P)
    requires Laws(g)
    ensures Mul(g, k + 1, p) == g.add(Mul(g, k, p), p)
    ensures Mul(g, k - 1, p) == g.add(Mul(g, k, p), g.neg(p))
  {
    if k < 0 {
      Cancel(g, Mul(g, k + 1, p), p);
    }
    if k > 0 {
      Cancel(g, Mul(g, k - 1, p), p);
    }
  }

  lemma {:induction false} MulAdd<P(!new)>(g: Group<P>, a: int, b: int, p: P)
    requires Laws(g)
    ensures Mul(g, a + b, p) == g.add(Mul(g, a, p), Mul(g, b, p))
    decreases Abs(b)
  {
    var x := Mul(g, a, p);
    if b == 0 {
      Zero(g, x);
    } else if b > 0 {
      MulAdd(g, a, b - 1, p);
      MulStep(g, a + (b - 1), p);
      Assoc(g, x, Mul(g, b - 1, p), p);
    } else {
      MulAdd(g, a, b + 1, p);
      MulStep(g, a + (b + 1), p);
      Assoc(g, x, Mul(g, b + 1, p), g.neg(p));
    }
  }

  lemma MulNeg<P(!new)>(g: Group<P>, k: int, p: P)
    requires Laws(g)
    ensures Mul(g, -k, p) == g.neg(Mul(g, k, p))
  {
    MulAdd(g, -k, k, p);
    Cancel(g, Mul(g, -k, p), Mul(g, k, p));
  }

  lemma MulSmall<P(!new)>(g: Group<P>, p: P)
    requires Laws(g)
    ensures Mul(g, 0, p) == g.zero
    ensures Mul(g, 1, p) == p
    ensures Mul(g, 2, p) == g.add(p, p)
    ensures Mul(g, -1, p) == g.neg(p)
  {
    Zero(g, p);
    MulStep(g, 0, p);
    MulStep(g, 1, p);
    MulNeg(g, 1, p);
  }

  lemma {:induction false} MulMul<P(!new)>(g: Group<P>, a: int, b: int, p: P)
    requires Laws(g)
    ensures Mul(g, a * b, p) == Mul(g, a, Mul(g, b, p))
    decreases Abs(a)
  {
    var q := Mul(g, b, p);
    if a > 0 {
      MulMul(g, a - 1, b, p);
      assert a * b == (a - 1) * b + b;
      MulAdd(g, (a - 1) * b, b, p);
    } else if a < 0 {
      MulMul(g, a + 1, b, p);
      assert a * b == (a + 1) * b + (-b);
      MulAdd(g, (a + 1) * b, -b, p);
      MulNeg(g, b, p);
    }
  }

  lemma NegAdd<P(!new)>(g: Group<P>, p: P, q: P)
    requires Laws(g)
    ensures g.neg(g.add(p, q)) == g.add(g.neg(p), g.neg(q))
  {
    Shuffle(g, g.neg(p), g.neg(q), p, q);
    Zero(g, p);
    Zero(g, q);
    Zero(g, g.zero);
    Cancel(g, g.add(g.neg(p), g.neg(q)), g.add(p, q));
  }

  lemma {:induction false} MulDist<P(!new)>(g: Group<P>, k: int, p: P, q: P)
    requires Laws(g)
    ensures Mul(g, k, g.add(p, q)) == g.add(Mul(g, k, p), Mul(g, k, q))
    decreases Abs(k)
  {
    if k == 0 {
      Zero(g, g.zero);
    } else if k > 0 {
      MulDist(g, k - 1, p, q);
      Shuffle(g, Mul(g, k - 1, p), Mul(g, k - 1, q), p, q);
    } else {
      MulDist(g, k + 1, p, q);
      NegAdd(g, p, q);
      Shuffle(g, Mul(g, k + 1, p), Mul(g, k + 1, q), g.neg(p), g.neg(q));
    }
  }

  lemma {:induction false} MulZero<P(!new)>(g: Group<P>, k: int)
    requires Laws(g)
    ensures Mul(g, k, g.zero) == g.zero
  {
    MulMul(g, k, 0, g.zero);
    MulSmall(g, g.zero);
  }

  /** Multiples depend only on the multiplier modulo the group order. */
  lemma MulCongruent<P(!new)>(g: Group<P>, a: int, b: int, p: P)
    requires Laws(g) && Congruent(a, b)
    ensures Mul(g, a, p) == Mul(g, b, p)
  {
    MulAdd(g, a - b, b, p);
    CongruentMod(a, b);
    assert AtMul(a - b, p);
    Zero(g, Mul(g, b, p));
  }

  lemma SumAppend<P(!new)>(g: Group<P>, ks: seq<int>, ps: seq<P>, k: int, p: P)
    requires |ks| == |ps|
    ensures Sum(g, ks + [k], ps + [p]) == g.add(Sum(g, ks, ps), Mul(g, k, p))
  {
    assert (ks + [k])[..|ks|] == ks && (ps + [p])[..|ps|] == ps;
  }

  /** The sum over a concatenation. */
  lemma {:induction false} SumConcat<P(!new)>(
      g: Group<P>, ks: seq<int>, ps: seq<P>, ks': seq<int>, ps': seq<P>)
    requires Laws(g) && |ks| == |ps| && |ks'| == |ps'|
    ensures Sum(g, ks + ks', ps + ps') == g.add(Sum(g, ks, ps), Sum(g, ks', ps'))
    decreases |ks'|
  {
    if ks' == [] {
      assert ks + ks' == ks && ps + ps' == ps;
      Zero(g, Sum(g, ks, ps));
    } else {
      var n := |ks'| - 1;
      var k0, p0, k, p := ks'[..n], ps'[..n], ks'[n], ps'[n];
      SumConcat(g, ks, ps, k0, p0);
      assert ks + ks' == (ks + k0) + [k] && ps + ps' == (ps + p0) + [p];
      SumAppend(g, ks + k0, ps + p0, k, p);
      Assoc(g, Sum(g, ks, ps), Sum(g, k0, p0), Mul(g, k, p));
    }
  }

  lemma {:induction false} SumZero<P(!new)>(g: Group<P>, ks: seq<int>, ps: seq<P>)
    requires Laws(g) && |ks| == |ps| && forall i :: 0 <= i < |ks| ==> ks[i] == 0
    ensures Sum(g, ks, ps) == g.zero
    decreases |ks|
  {
    if ks != [] {
      var n := |ks| - 1;
      SumZero(g, ks[..n], ps[..n]);
      Zero(g, g.zero);
    }
  }

  lemma {:induction false} SumScale<P(!new)>(g: Group<P>, k: int, ks: seq<int>, kks: seq<int>, ps: seq<P>)
    requires Laws(g) && |ks| == |ps| == |kks| && forall i :: 0 <= i < |ks| ==> kks[i] == k * ks[i]
    ensures Sum(g, kks, ps) == Mul(g, k, Sum(g, ks, ps))
    decreases |ks|
  {
    if ks == [] {
      MulZero(g, k);
    } else {
      var n := |ks| - 1;
      SumScale(g, k, ks[..n], kks[..n], ps[..n]);
      MulMul(g, k, ks[n], ps[n]);
      MulDist(g, k, Sum(g, ks[..n], ps[..n]), Mul(g, ks[n], ps[n]));
    }
  }

  lemma {:induction false} SumUpdate<P(!new)>(g: Group<P>, ks: seq<int>, ps: seq<P>, j: nat, x: int)
    requires Laws(g) && |ks| == |ps| && j < |ks|
    ensures Sum(g, ks[j := ks[j] + x], ps) == g.add(Sum(g, ks, ps), Mul(g, x, ps[j]))
    decreases |ks|
  {
    var n := |ks| - 1;
    var s, t := Sum(g, ks[..n], ps[..n]), Mul(g, x, ps[j]);
    if j == n {
      MulAdd(g, ks[j], x, ps[j]);
      assert ks[j := ks[j] + x][..n] == ks[..n];
      Assoc(g, s, Mul(g, ks[j], ps[j]), t);
    } else {
      SumUpdate(g, ks[..n], ps[..n], j, x);
      assert ks[j := ks[j] + x][..n] == ks[..n][j := ks[j] + x];
      var u := Mul(g, ks[n], ps[n]);
      Assoc(g, s, t, u);
      Comm(g, t, u);
      Assoc(g, s, u, t);
    }
  }

  lemma {:induction false} SumAdd<P(!new)>(g: Group<P>, ks: seq<int>, ls: seq<int>, ms: seq<int>, ps: seq<P>)
    requires Laws(g) && |ks| == |ls| == |ms| == |ps|
    requires forall i :: 0 <= i < |ks| ==> ms[i] == ks[i] + ls[i]
    ensures Sum(g, ms, ps) == g.add(Sum(g, ks, ps), Sum(g, ls, ps))
    decreases |ks|
  {
    if ks == [] {
      Zero(g, g.zero);
    } else {
      var n := |ks| - 1;
      SumAdd(g, ks[..n], ls[..n], ms[..n], ps[..n]);
      MulAdd(g, ks[n], ls[n], ps[n]);
      Shuffle(g, Sum(g, ks[..n], ps[..n]), Sum(g, ls[..n], ps[..n]), Mul(g, ks[n], ps[n]), Mul(g, ls[n], ps[n]));
    }
  }

  lemma {:induction false} SumPointUpdate<P(!new)>(g: Group<P>, ks: seq<int>, ps: seq<P>, j: nat, q: P)
    requires Laws(g) && |ks| == |ps| && j < |ks|
    ensures Sum(g, ks, ps[j := g.add(ps[j], q)]) == g.add(Sum(g, ks, ps), Mul(g, ks[j], q))
    decreases |ks|
  {
    var n := |ks| - 1;
    var s, t := Sum(g, ks[..n], ps[..n]), Mul(g, ks[j], q);
    if j == n {
      MulDist(g, ks[j], ps[j], q);
      assert ps[j := g.add(ps[j], q)][..n] == ps[..n];
      Assoc(g, s, Mul(g, ks[j], ps[j]), t);
    } else {
      SumPointUpdate(g, ks[..n], ps[..n], j, q);
      assert ps[j := g.add(ps[j], q)][..n] == ps[..n][j := g.add(ps[j], q)];
      var u := Mul(g, ks[n], ps[n]);
      Assoc(g, s, t, u);
      Comm(g, t, u);
      Assoc(g, s, u, t);
    }
  }
}
