/**
 Scalars modulo the group order of secp256k1 (SEC 2, section 2.7.1).
 */
module Scalars {
  import opened Arith
  import opened Modular

  const N: int := 0xFFFFFFFF_FFFFFFFF_FFFFFFFF_FFFFFFFE_BAAEDCE6_AF48A03B_BFD25E8C_D0364141
  const HALF_N: int := 0x7FFFFFFF_FFFFFFFF_FFFFFFFF_FFFFFFFF_5D576E73_57A4501D_DFE92F46_681B20A0

  type Scalar = s: int | 0 <= s < N

  function Negate(s: Scalar): Scalar {
    if s == 0 then 0 else N - s
  }

  function ScalarAdd(a: Scalar, b: Scalar): Scalar {
    if a + b < N then a + b else a + b - N
  }

  function ScalarMul(a: Scalar, b: Scalar): Scalar {
    AddTimes(a, b, 0, N)
  }

  lemma ScalarMulMod(a: Scalar, b: Scalar)
    ensures ScalarMul(a, b) == (a * b) % N
  {
    AddTimesMod(a, b, 0, N);
  }

  predicate IsHigh(s: Scalar) {
    s > HALF_N
  }

  /** The representative of smallest absolute value, where "small" means bit 255 is clear. */
  function Signed(s: Scalar): int {
    if GetBits(s, 255, 1) == 1 then s - N else s
  }

  function Abs(x: int): nat {
    if x < 0 then -x else x
  }

  /** a and b leave the same remainder. */
  ghost predicate Congruent(a: int, b: int) {
    Alike(a, b, N)
  }

  lemma CongruentMod(a: int, b: int)
    ensures Congruent(a, b) <==> (a - b) % N == 0
  {
    AlikeMod(a, b, N);
  }

  lemma Pow2Values()
    ensures Pow2(255) == 0x80000000_00000000_00000000_00000000_00000000_00000000_00000000_00000000
    ensures Pow2(256) == 2 * Pow2(255)
    ensures Pow2(255) < N < Pow2(256)
  {
    Pow2Square(8, 0x100, 16, 0x1_0000);
    Pow2Square(16, 0x1_0000, 32, 0x1_0000_0000);
    Pow2Square(32, 0x1_0000_0000, 64, 0x1_00000000_00000000);
    Pow2Square(64, 0x1_00000000_00000000, 128, 0x1_00000000_00000000_00000000_00000000);
    var v := 0x1_00000000_00000000_00000000_00000000_00000000_00000000_00000000_00000000;
    Pow2Square(128, 0x1_00000000_00000000_00000000_00000000, 256, v);
  }

  /** Bit 255 is set exactly on the scalars from 2^255 on. */
  lemma TopBit(s: Scalar)
    ensures GetBits(s, 255, 1) == if s >= Pow2(255) then 1 else 0
    ensures Abs(Signed(s)) < Pow2(255)
  {
    Pow2Values();
    if s < Pow2(255) {
      GetBitsHigh(s, 255, 1, 255);
    } else {
      ShrLow(s, 255);
      GetBitsShort(s, 255, 1, 256);
    }
  }
}
