/**
 No point of y^2 = x^3 + 7 has y = 0: the number -7 has no cube root modulo p. It is
 a cube times a primitive cube root of unity, which is no cube because 9 does not
 divide p - 1.
 */
module Cubes {
  import opened FieldReduce
  import opened FieldPower

  lemma CubeIsPow(x: nat)
    requires x < P
    ensures Pow(x, 3) == FMul(x, FMul(x, x))
  {
    FMulOne(x);
    assert Pow(x, 1) == FMul(x, Pow(x, 0)) == x;
    assert Pow(x, 2) == FMul(x, Pow(x, 1));
    assert Pow(x, 3) == FMul(x, Pow(x, 2));
  }

  lemma {:induction false} PowPeriod(z: nat, e: nat, k: nat)
    requires Pow(z, e) == 1
    ensures Pow(z, k * e) == 1
    decreases k
  {
    if k > 0 {
      PowPeriod(z, e, k - 1);
      assert k * e == e + (k - 1) * e;
      PowAdd(z, e, (k - 1) * e);
      FMulOne(1);
    }
  }

  /** A cube whose own cube is 1 is 1, since p - 1 is 6 modulo 9. */
  lemma NoNinthRoot(z: nat, c: nat)
    requires Fermat() && 0 < z < P && c == Pow(z, 3) && FMul(c, FMul(c, c)) == 1
    ensures c == 1
  {
    PowAdd(z, 3, 3);
    PowAdd(z, 3, 6);
    var k := (P - 1) / 9;
    PowPeriod(z, 9, k);
    PowAdd(z, k * 9, 6);
    FermatFor(z);
    assert k * 9 + 6 == P - 1;
    FMulOne(Pow(z, 6));
    FMulOne(c);
  }

  /** If n is c times the cube of t, for a primitive cube root of unity c, then n is no cube. */
  lemma NotCube(x: nat, n: nat, c: nat, t: nat)
    requires Fermat() && 0 < t < P && x < P && 1 < c < P && n > 0
    requires FMul(c, FMul(c, c)) == 1 && FMul(c, Pow(t, 3)) == n
    ensures Pow(x, 3) != n
  {
    if Pow(x, 3) == n {
      var u := Pow(t, P - 2);
      InverseWorks(t, P - 2);
      var z := FMul(x, u);
      PowOfProduct(x, u, 3);
      PowOfProduct(t, u, 3);
      PowOfOne(3);
      FMulAssoc(c, Pow(t, 3), Pow(u, 3));
      FMulOne(c);
      assert Pow(z, 3) == c;
      if z == 0 {
        PowOfZero(3);
      }
      NoNinthRoot(z, c);
    }
  }

  lemma {:induction false} PowOfOne(e: nat)
    ensures Pow(1, e) == 1
    decreases e
  {
    if e > 0 {
      PowOfOne(e - 1);
      FMulOne(1);
    }
  }

  /** The cube root of unity, the factor, and their powers. */
  const C: nat := 0x851695d4_9a83f8ef_919bb861_53cbcb16_630fb68a_ed0a766a_3ec693d6_8e6afa40
  const C2: nat := 0x7ae96a2b_657c0710_6e64479e_ac3434e9_9cf04975_12f58995_c1396c28_719501ee
  const T: nat := 0x65b58424_dd8ddd2c_05515a0b_91e35f19_800ac7d4_b8cd756f_1f4dcb74_9966531d
  const T2: nat := 0xa47e4473_c00813d8_28ca294b_e58dcc3a_d35de5bb_eb6606af_f66c7f82_0b420a0a
  const T3: nat := 0xa39e18d0_399bce8c_fb420aa9_4a928d9c_b56dfdcc_7b493ce7_b76e0ae0_e4ece33a

  /** The products, in plain numbers. */
  lemma Certificate()
    ensures C2 == (C * C) % P && (C * C2) % P == 1
    ensures T2 == (T * T) % P && T3 == (T * T2) % P && P - 7 == (C * T3) % P
  {
  }

  lemma Product(a: nat, b: nat, r: nat)
    requires r == (a * b) % P
    ensures FMul(a, b) == r
  {
    FMulMod(a, b);
  }

  lemma Products()
    ensures FMul(C, C2) == 1 && FMul(C, C) == C2
    ensures FMul(T, T) == T2 && FMul(T, T2) == T3 && FMul(C, T3) == P - 7
  {
    Certificate();
    Product(C, C, C2);
    Product(C, C2, 1);
    Product(T, T, T2);
    Product(T, T2, T3);
    Product(C, T3, P - 7);
  }

  /** -7 is no cube. */
  lemma MinusSeven(x: nat)
    requires Fermat() && x < P
    ensures FMul(x, FMul(x, x)) != P - 7
  {
    Products();
    CubeIsPow(T);
    NotCube(x, P - 7, C, T);
    CubeIsPow(x);
  }
}
