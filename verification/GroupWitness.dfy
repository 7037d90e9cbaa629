/**
 The assumptions about the curve group can be met: addition modulo N meets the
 group laws, and reading a coordinate and a parity off it meets the laws of ECDSA.
 */
module GroupWitness {
  import opened Scalars
  import opened Residues
  import opened CurveGroup
  import Ecdsa
  import opened Jacobian

  function Cyclic(): Group<Scalar> {
    Group((x: Scalar, y: Scalar) => ScalarAdd(x, y), (x: Scalar) => Negate(x), 0, 1)
  }

  lemma {:induction false} CyclicMul(k: int, x: Scalar)
    ensures Congruent(Mul(Cyclic(), k, x), k * x)
    decreases Abs(k)
  {
    if k == 0 {
      Same(0);
    } else if k > 0 {
      CyclicMul(k - 1, x);
      var m := Mul(Cyclic(), k - 1, x);
      Reduced(m, x);
      Same(x);
      Plus(m, (k - 1) * x, x, x);
      assert (k - 1) * x + x == k * x;
      Chain(ScalarAdd(m, x), m + x, k * x);
    } else {
      CyclicMul(k + 1, x);
      var m := Mul(Cyclic(), k + 1, x);
      Reduced(m, Negate(x));
      Reduced(x, x);
      Plus(m, (k + 1) * x, Negate(x), -(x as int));
      assert (k + 1) * x + -(x as int) == k * x;
      Chain(ScalarAdd(m, Negate(x)), m + Negate(x), k * x);
    }
  }

  lemma Order(k: int, x: Scalar)
    requires k % N == 0
    ensures Mul(Cyclic(), k, x) == 0
  {
    CyclicMul(k, x);
    CongruentMod(k, 0);
    Times(k, 0, x);
    Chain(Mul(Cyclic(), k, x), k * x, 0);
    Equal(Mul(Cyclic(), k, x), 0);
  }

  /** The group laws hold of the integers modulo N. */
  lemma LawsHold()
    ensures Laws(Cyclic())
  {
    forall k: int, x: Scalar | k % N == 0 ensures Mul(Cyclic(), k, x) == 0 {
      Order(k, x);
    }
  }

  function Coordinate(p: Scalar): nat {
    if IsHigh(p) then N - p else p
  }

  lemma OverOne(x: nat)
    requires x < Ecdsa.FIELD
    ensures Ecdsa.AffineX(x, Jac(x, 0, 1))
  {
    assert x * (1 * 1) == x;
  }

  /** So do those that the signature scheme adds. */
  lemma CurveLawsHold()
    ensures Ecdsa.CurveLaws(Ecdsa.Curve(Cyclic(), (p: Scalar) => Coordinate(p), (p: Scalar) => IsHigh(p),
                                        (p: Scalar) => Jac(Coordinate(p), 0, 1)))
  {
    LawsHold();
    forall p: Scalar ensures Ecdsa.AffineX(Coordinate(p), Jac(Coordinate(p), 0, 1)) {
      OverOne(Coordinate(p));
    }
  }
}
