/**
 Congruence modulo the group order, and modular inverses.
 */
module Residues {
  import opened Arith
  import opened Modular
  import opened Scalars

  lemma Same(a: int)
    ensures Congruent(a, a)
  {
  }

  lemma Symmetric(a: int, b: int)
    requires Congruent(a, b)
    ensures Congruent(b, a)
  {
  }

  lemma Chain(a: int, b: int, c: int)
    requires Congruent(a, b) && Congruent(b, c)
    ensures Congruent(a, c)
  {
  }

  lemma Times(a: int, b: int, c: int)
    requires Congruent(a, b)
    ensures Congruent(a * c, b * c) && Congruent(c * a, c * b)
  {
    AlikeTimes(a, b, c, N);
  }

  lemma Plus(a: int, b: int, c: int, d: int)
    requires Congruent(a, b) && Congruent(c, d)
    ensures Congruent(a + c, b + d)
  {
    AlikeSum(a, b, c, d, N);
  }

  lemma Reduced(a: Scalar, b: Scalar)
    ensures Congruent(ScalarMul(a, b), a * b)
    ensures Congruent(ScalarAdd(a, b), a + b)
    ensures Congruent(Negate(a), -(a as int))
  {
    ScalarMulMod(a, b);
    RemainderMod(a * b, N);
    CongruentMod((a * b) % N, a * b);
    CongruentMod(ScalarAdd(a, b), a + b);
    CongruentMod(Negate(a), -(a as int));
    DivModUnique(ScalarAdd(a, b) - (a + b), N, if a + b < N then 0 else -1, 0);
    DivModUnique(Negate(a) + a, N, if a == 0 then 0 else 1, 0);
  }

  /** Congruent scalars are the same. */
  lemma Equal(a: Scalar, b: Scalar)
    requires Congruent(a, b)
    ensures a == b
  {
    CongruentMod(a, b);
    CongruentMod(b, a);
    if a >= b {
      ModSmall(a - b, N);
    } else {
      Symmetric(a, b);
      ModSmall(b - a, N);
    }
  }

  /** `secp256k1_scalar_inverse`: an inverse for every nonzero scalar. */
  ghost predicate Inverts(inv: Scalar -> Scalar) {
    forall s: Scalar :: s != 0 ==> Congruent(inv(s) * s, 1)
  }

  lemma Rearrange(a: int, b: int, c: int)
    ensures a * (b * c) == (a * b) * c && a * (b * c) == (a * c) * b
  {
  }

  /** Multiplying by the inverse undoes multiplying. */
  lemma Undo(inv: Scalar -> Scalar, s: Scalar, x: int)
    requires Inverts(inv) && s != 0
    ensures Congruent(inv(s) * (s * x), x) && Congruent(s * (inv(s) * x), x)
  {
    Times(inv(s) * s, 1, x);
    Rearrange(inv(s), s, x);
    Rearrange(s, inv(s), x);
  }

  /** A product with an invertible factor is zero only for zero. */
  lemma NoZeroDivisor(inv: Scalar -> Scalar, s: Scalar, x: int)
    requires Inverts(inv) && s != 0
    ensures Congruent(inv(s) * x, 0) <==> Congruent(x, 0)
    ensures Congruent(s * x, 0) <==> Congruent(x, 0)
  {
    Undo(inv, s, x);
    Cancels(s, inv(s), x);
    Cancels(inv(s), s, x);
  }

  lemma Cancels(a: int, b: int, x: int)
    requires Congruent(a * (b * x), x)
    ensures Congruent(b * x, 0) <==> Congruent(x, 0)
  {
    if Congruent(b * x, 0) {
      Times(b * x, 0, a);
      Symmetric(a * (b * x), x);
      Chain(x, a * (b * x), 0);
    } else if Congruent(x, 0) {
      Times(x, 0, b);
    }
  }
}
