/**
 Congruence of integers modulo p.
 */
module FieldCongruence {
  import opened Arith
  import opened Modular
  import opened FieldReduce
  import opened FieldPower

  /** a and b leave the same remainder. */
  ghost predicate Eq(a: int, b: int) {
    Alike(a, b, P)
  }

  lemma Refl(a: int)
    ensures Eq(a, a)
  {
  }

  lemma Sym(a: int, b: int)
    requires Eq(a, b)
    ensures Eq(b, a)
  {
  }

  lemma Trans(a: int, b: int, c: int)
    requires Eq(a, b) && Eq(b, c)
    ensures Eq(a, c)
  {
  }

  lemma Scale(a: int, b: int, c: int)
    requires Eq(a, b)
    ensures Eq(a * c, b * c) && Eq(c * a, c * b)
  {
    AlikeTimes(a, b, c, P);
  }

  lemma Mul(a: int, b: int, c: int, d: int)
    requires Eq(a, b) && Eq(c, d)
    ensures Eq(a * c, b * d)
  {
    Scale(a, b, c);
    Scale(c, d, b);
    Trans(a * c, b * c, b * d);
  }

  lemma Sum(a: int, b: int, c: int, d: int)
    requires Eq(a, b) && Eq(c, d)
    ensures Eq(a + c, b + d) && Eq(a - c, b - d)
  {
    AlikeSum(a, b, c, d, P);
  }

  lemma Reduces(a: int)
    ensures Eq(a % P, a)
  {
    AlikeMod(a % P, a, P);
    RemainderMod(a, P);
  }

  lemma OfFMul(a: int, b: nat)
    ensures Eq(FMul(a, b), a * b)
  {
    FMulMod(a, b);
    Reduces(a * b);
  }

  /** Reduced numbers that are congruent are the same. */
  lemma Unique(a: nat, b: nat)
    requires Eq(a, b) && a < P && b < P
    ensures a == b
  {
    AlikeMod(a, b, P);
    if a >= b {
      ModSmall(a - b, P);
    } else {
      Sym(a, b);
      AlikeMod(b, a, P);
      ModSmall(b - a, P);
    }
  }

  /** A unit can be cancelled. */
  lemma Cancel(a: int, b: int, u: int, v: int)
    requires Eq(u * v, 1) && Eq(a * u, b * u)
    ensures Eq(a, b)
  {
    Scale(a * u, b * u, v);
    Unit(a, u, v);
    Unit(b, u, v);
    Sym((a * u) * v, a);
    Trans(a, (a * u) * v, (b * u) * v);
    Trans(a, (b * u) * v, b);
  }

  lemma Unit(a: int, u: int, v: int)
    requires Eq(u * v, 1)
    ensures Eq((a * u) * v, a) && Eq(a * (u * v), a)
  {
    Scale(u * v, 1, a);
    assert (a * u) * v == a * (u * v);
  }

  lemma Power2(u: int, v: int)
    requires Eq(u, v)
    ensures Eq(u * u, v * v) && Eq((u * u) * u, (v * v) * v)
  {
    Mul(u, v, u, v);
    Mul(u * u, v * v, u, v);
  }

  /** Products of units are units. */
  lemma UnitProduct(u: int, v: int, s: int, t: int)
    requires Eq(u * v, 1) && Eq(s * t, 1)
    ensures Eq((u * s) * (v * t), 1)
  {
    Mul(u * v, 1, s * t, 1);
    assert (u * s) * (v * t) == (u * v) * (s * t) by { Exchange(u, s, v, t); }
  }

  lemma Exchange(a: int, b: int, c: int, d: int)
    ensures (a * b) * (c * d) == (a * c) * (b * d)
  {
    assert (a * b) * (c * d) == a * (b * (c * d));
    assert b * (c * d) == c * (b * d);
    assert a * (c * (b * d)) == (a * c) * (b * d);
  }

  /** Every nonzero residue is a unit. */
  lemma Invertible(u: nat) returns (v: nat)
    requires Fermat() && 0 < u < P
    ensures Eq(u * v, 1)
  {
    var e := P - 2;
    InverseWorks(u, e);
    v := Pow(u, e);
    OfFMul(u, v);
    Sym(FMul(u, v), u * v);
  }
}
