/**
 The column sums of ten-limb multiplication and squaring, written out.
 */
module FieldColumns {
  import opened Arith
  import opened Bits
  import opened Limbs
  import opened Convolution
  import opened Field10x26

  const TX: nat := 0x3FFFFFFF * 0x3FFFFFF
  const TT: nat := 0x3FFFFFF * 0x3FFFFFF

  /** The operands: limbs below 2^30, the top limb below 2^26. */
  ghost predicate Operand(a: seq<nat>) {
    |a| == 10 && a[9] < B26 && forall i :: 0 <= i < 9 ==> a[i] <= 0x3FFFFFFF
  }

  ghost function TermLimit(i: int, j: int): nat {
    if j < 0 || j > 9 then 0 else if i == 9 && j == 9 then TT else if i == 9 || j == 9 then TX else SQ
  }

  lemma TermBound(a: seq<nat>, b: seq<nat>, i: nat, k: nat)
    requires Operand(a) && Operand(b) && i < 10
    ensures Term(a, b, i, k) <= TermLimit(i, k - i)
  {
    if i <= k < i + 10 {
      MulMono(a[i], if i == 9 then 0x3FFFFFF else 0x3FFFFFFF, b[k - i], if k - i == 9 then 0x3FFFFFF else 0x3FFFFFFF);
    }
  }

  ghost function LimitSum(n: nat, k: nat): nat {
    if n == 0 then 0 else LimitSum(n - 1, k) + TermLimit(n - 1, k - (n - 1))
  }

  lemma {:induction false} PartialBound(a: seq<nat>, b: seq<nat>, n: nat, k: nat)
    requires Operand(a) && Operand(b) && n <= 10
    ensures Partial(a, b, n, k) <= LimitSum(n, k)
  {
    if n > 0 {
      PartialBound(a, b, n - 1, k);
      TermBound(a, b, n - 1, k);
    }
  }

  lemma TenTerms(a: seq<nat>, b: seq<nat>, k: nat)
    requires |a| == 10
    ensures Column(a, b, k) == Term(a, b, 0, k) + Term(a, b, 1, k) + Term(a, b, 2, k) + Term(a, b, 3, k)
      + Term(a, b, 4, k) + Term(a, b, 5, k) + Term(a, b, 6, k) + Term(a, b, 7, k) + Term(a, b, 8, k)
      + Term(a, b, 9, k)
  {
    assert Partial(a, b, 1, k) == Term(a, b, 0, k);
    assert Partial(a, b, 2, k) == Term(a, b, 0, k) + Term(a, b, 1, k);
    assert Partial(a, b, 4, k) == Partial(a, b, 2, k) + Term(a, b, 2, k) + Term(a, b, 3, k);
    assert Partial(a, b, 6, k) == Partial(a, b, 4, k) + Term(a, b, 4, k) + Term(a, b, 5, k);
    assert Partial(a, b, 8, k) == Partial(a, b, 6, k) + Term(a, b, 6, k) + Term(a, b, 7, k);
    assert Partial(a, b, 10, k) == Partial(a, b, 8, k) + Term(a, b, 8, k) + Term(a, b, 9, k);
  }

  /** No column sum leaves its 64 bits. */
  lemma ColumnBound(a: seq<nat>, b: seq<nat>, k: nat)
    requires Operand(a) && Operand(b) && k < 19
    ensures Column(a, b, k) <= LimitSum(10, k)
    ensures k < 10 ==> LimitSum(10, k) <= 9 * SQ
    ensures 10 <= k ==> LimitSum(10, k) < 0x7F00_0000_0000_0000
    ensures k == 18 ==> LimitSum(10, k) <= TT
  {
    PartialBound(a, b, 10, k);
    LimitValue(k);
  }

  lemma LimitValue(k: nat)
    requires k < 19
    ensures LimitSum(10, k) == if k < 9 then (k + 1) * SQ else if k == 18 then TT else (17 - k) * SQ + 2 * TX
  {
    assert LimitSum(1, k) == TermLimit(0, k);
    assert LimitSum(2, k) == TermLimit(0, k) + TermLimit(1, k - 1);
    assert LimitSum(4, k) == LimitSum(2, k) + TermLimit(2, k - 2) + TermLimit(3, k - 3);
    assert LimitSum(6, k) == LimitSum(4, k) + TermLimit(4, k - 4) + TermLimit(5, k - 5);
    assert LimitSum(8, k) == LimitSum(6, k) + TermLimit(6, k - 6) + TermLimit(7, k - 7);
    assert LimitSum(10, k) == LimitSum(8, k) + TermLimit(8, k - 8) + TermLimit(9, k - 9);
  }

  /** Columns 0 to 3 of a product. */
  method Mul0To3(a: seq<u32>, b: seq<u32>) returns (p: seq<u64>)
    requires Operand(a) && Operand(b)
    ensures |p| == 4 && forall k :: 0 <= k < 4 ==> p[k] == Column(a, b, k)
  {
    TenTerms(a, b, 0);
    ColumnBound(a, b, 0);
    var p0: u64 := MulNat(a[0], b[0]);
    TenTerms(a, b, 1);
    ColumnBound(a, b, 1);
    var p1: u64 := MulNat(a[0], b[1]) + MulNat(a[1], b[0]);
    TenTerms(a, b, 2);
    ColumnBound(a, b, 2);
    var p2: u64 := MulNat(a[0], b[2]) + MulNat(a[1], b[1]) + MulNat(a[2], b[0]);
    TenTerms(a, b, 3);
    ColumnBound(a, b, 3);
    var p3: u64 := MulNat(a[0], b[3]) + MulNat(a[1], b[2]) + MulNat(a[2], b[1]) + MulNat(a[3], b[0]);
    p := [p0, p1, p2, p3];
  }

  /** Columns 4 to 6 of a product. */
  method Mul4To6(a: seq<u32>, b: seq<u32>) returns (p: seq<u64>)
    requires Operand(a) && Operand(b)
    ensures |p| == 3 && forall k :: 0 <= k < 3 ==> p[k] == Column(a, b, k + 4)
  {
    TenTerms(a, b, 4);
    ColumnBound(a, b, 4);
    var p4: u64 := MulNat(a[0], b[4]) + MulNat(a[1], b[3]) + MulNat(a[2], b[2]) + MulNat(a[3], b[1])
       + MulNat(a[4], b[0]);
    TenTerms(a, b, 5);
    ColumnBound(a, b, 5);
    var p5: u64 := MulNat(a[0], b[5]) + MulNat(a[1], b[4]) + MulNat(a[2], b[3]) + MulNat(a[3], b[2])
       + MulNat(a[4], b[1]) + MulNat(a[5], b[0]);
    TenTerms(a, b, 6);
    ColumnBound(a, b, 6);
    var p6: u64 := MulNat(a[0], b[6]) + MulNat(a[1], b[5]) + MulNat(a[2], b[4]) + MulNat(a[3], b[3])
       + MulNat(a[4], b[2]) + MulNat(a[5], b[1]) + MulNat(a[6], b[0]);
    p := [p4, p5, p6];
  }

  /** Columns 7 to 8 of a product. */
  method Mul7To8(a: seq<u32>, b: seq<u32>) returns (p: seq<u64>)
    requires Operand(a) && Operand(b)
    ensures |p| == 2 && forall k :: 0 <= k < 2 ==> p[k] == Column(a, b, k + 7)
  {
    TenTerms(a, b, 7);
    ColumnBound(a, b, 7);
    var p7: u64 := MulNat(a[0], b[7]) + MulNat(a[1], b[6]) + MulNat(a[2], b[5]) + MulNat(a[3], b[4])
       + MulNat(a[4], b[3]) + MulNat(a[5], b[2]) + MulNat(a[6], b[1]) + MulNat(a[7], b[0]);
    TenTerms(a, b, 8);
    ColumnBound(a, b, 8);
    var p8: u64 := MulNat(a[0], b[8]) + MulNat(a[1], b[7]) + MulNat(a[2], b[6]) + MulNat(a[3], b[5])
       + MulNat(a[4], b[4]) + MulNat(a[5], b[3]) + MulNat(a[6], b[2]) + MulNat(a[7], b[1]) + MulNat(a[8], b[0]);
    p := [p7, p8];
  }

  /** Columns 9 to 10 of a product. */
  method Mul9To10(a: seq<u32>, b: seq<u32>) returns (p: seq<u64>)
    requires Operand(a) && Operand(b)
    ensures |p| == 2 && forall k :: 0 <= k < 2 ==> p[k] == Column(a, b, k + 9)
  {
    TenTerms(a, b, 9);
    ColumnBound(a, b, 9);
    var p9: u64 := MulNat(a[0], b[9]) + MulNat(a[1], b[8]) + MulNat(a[2], b[7]) + MulNat(a[3], b[6])
       + MulNat(a[4], b[5]) + MulNat(a[5], b[4]) + MulNat(a[6], b[3]) + MulNat(a[7], b[2]) + MulNat(a[8], b[1])
       + MulNat(a[9], b[0]);
    TenTerms(a, b, 10);
    ColumnBound(a, b, 10);
    var p10: u64 := MulNat(a[1], b[9]) + MulNat(a[2], b[8]) + MulNat(a[3], b[7]) + MulNat(a[4], b[6])
       + MulNat(a[5], b[5]) + MulNat(a[6], b[4]) + MulNat(a[7], b[3]) + MulNat(a[8], b[2]) + MulNat(a[9], b[1]);
    p := [p9, p10];
  }

  /** Columns 11 to 13 of a product. */
  method Mul11To13(a: seq<u32>, b: seq<u32>) returns (p: seq<u64>)
    requires Operand(a) && Operand(b)
    ensures |p| == 3 && forall k :: 0 <= k < 3 ==> p[k] == Column(a, b, k + 11)
  {
    TenTerms(a, b, 11);
    ColumnBound(a, b, 11);
    var p11: u64 := MulNat(a[2], b[9]) + MulNat(a[3], b[8]) + MulNat(a[4], b[7]) + MulNat(a[5], b[6])
       + MulNat(a[6], b[5]) + MulNat(a[7], b[4]) + MulNat(a[8], b[3]) + MulNat(a[9], b[2]);
    TenTerms(a, b, 12);
    ColumnBound(a, b, 12);
    var p12: u64 := MulNat(a[3], b[9]) + MulNat(a[4], b[8]) + MulNat(a[5], b[7]) + MulNat(a[6], b[6])
       + MulNat(a[7], b[5]) + MulNat(a[8], b[4]) + MulNat(a[9], b[3]);
    TenTerms(a, b, 13);
    ColumnBound(a, b, 13);
    var p13: u64 := MulNat(a[4], b[9]) + MulNat(a[5], b[8]) + MulNat(a[6], b[7]) + MulNat(a[7], b[6])
       + MulNat(a[8], b[5]) + MulNat(a[9], b[4]);
    p := [p11, p12, p13];
  }

  /** Columns 14 to 18 of a product. */
  method Mul14To18(a: seq<u32>, b: seq<u32>) returns (p: seq<u64>)
    requires Operand(a) && Operand(b)
    ensures |p| == 5 && forall k :: 0 <= k < 5 ==> p[k] == Column(a, b, k + 14)
  {
    TenTerms(a, b, 14);
    ColumnBound(a, b, 14);
    var p14: u64 := MulNat(a[5], b[9]) + MulNat(a[6], b[8]) + MulNat(a[7], b[7]) + MulNat(a[8], b[6])
       + MulNat(a[9], b[5]);
    TenTerms(a, b, 15);
    ColumnBound(a, b, 15);
    var p15: u64 := MulNat(a[6], b[9]) + MulNat(a[7], b[8]) + MulNat(a[8], b[7]) + MulNat(a[9], b[6]);
    TenTerms(a, b, 16);
    ColumnBound(a, b, 16);
    var p16: u64 := MulNat(a[7], b[9]) + MulNat(a[8], b[8]) + MulNat(a[9], b[7]);
    TenTerms(a, b, 17);
    ColumnBound(a, b, 17);
    var p17: u64 := MulNat(a[8], b[9]) + MulNat(a[9], b[8]);
    TenTerms(a, b, 18);
    ColumnBound(a, b, 18);
    var p18: u64 := MulNat(a[9], b[9]);
    p := [p14, p15, p16, p17, p18];
  }

  /** `(uint64_t)(x * 2) * y`, with the doubling in 32 bits: both products of a pair. */
  method Doubled(x: u32, y: u32) returns (s: u64)
    requires x <= 0x3FFFFFFF && y <= 0x3FFFFFFF
    ensures s == MulNat(x, y) + MulNat(y, x)
  {
    var x2: u32 := 2 * x;
    MulMono(x2, 0x7FFFFFFE, y, 0x3FFFFFFF);
    Double(x, y);
    s := MulNat(x2, y);
  }

  /** Columns 0 to 3 of a square, with doubled limbs. */
  method Sqr0To3(a: seq<u32>) returns (p: seq<u64>)
    requires Operand(a)
    ensures |p| == 4 && forall k :: 0 <= k < 4 ==> p[k] == Column(a, a, k)
  {
    TenTerms(a, a, 0);
    ColumnBound(a, a, 0);
    var p0: u64 := MulNat(a[0], a[0]);
    TenTerms(a, a, 1);
    ColumnBound(a, a, 1);
    var s0_1 := Doubled(a[0], a[1]);
    var p1: u64 := s0_1;
    TenTerms(a, a, 2);
    ColumnBound(a, a, 2);
    var s0_2 := Doubled(a[0], a[2]);
    var p2: u64 := s0_2 + MulNat(a[1], a[1]);
    TenTerms(a, a, 3);
    ColumnBound(a, a, 3);
    var s0_3 := Doubled(a[0], a[3]);
    var s1_2 := Doubled(a[1], a[2]);
    var p3: u64 := s0_3 + s1_2;
    p := [p0, p1, p2, p3];
  }

  /** Columns 4 to 6 of a square, with doubled limbs. */
  method Sqr4To6(a: seq<u32>) returns (p: seq<u64>)
    requires Operand(a)
    ensures |p| == 3 && forall k :: 0 <= k < 3 ==> p[k] == Column(a, a, k + 4)
  {
    TenTerms(a, a, 4);
    ColumnBound(a, a, 4);
    var s0_4 := Doubled(a[0], a[4]);
    var s1_3 := Doubled(a[1], a[3]);
    var p4: u64 := s0_4 + s1_3 + MulNat(a[2], a[2]);
    TenTerms(a, a, 5);
    ColumnBound(a, a, 5);
    var s0_5 := Doubled(a[0], a[5]);
    var s1_4 := Doubled(a[1], a[4]);
    var s2_3 := Doubled(a[2], a[3]);
    var p5: u64 := s0_5 + s1_4 + s2_3;
    TenTerms(a, a, 6);
    ColumnBound(a, a, 6);
    var s0_6 := Doubled(a[0], a[6]);
    var s1_5 := Doubled(a[1], a[5]);
    var s2_4 := Doubled(a[2], a[4]);
    var p6: u64 := s0_6 + s1_5 + s2_4 + MulNat(a[3], a[3]);
    p := [p4, p5, p6];
  }

  /** Columns 7 to 8 of a square, with doubled limbs. */
  method Sqr7To8(a: seq<u32>) returns (p: seq<u64>)
    requires Operand(a)
    ensures |p| == 2 && forall k :: 0 <= k < 2 ==> p[k] == Column(a, a, k + 7)
  {
    TenTerms(a, a, 7);
    ColumnBound(a, a, 7);
    var s0_7 := Doubled(a[0], a[7]);
    var s1_6 := Doubled(a[1], a[6]);
    var s2_5 := Doubled(a[2], a[5]);
    var s3_4 := Doubled(a[3], a[4]);
    var p7: u64 := s0_7 + s1_6 + s2_5 + s3_4;
    TenTerms(a, a, 8);
    ColumnBound(a, a, 8);
    var s0_8 := Doubled(a[0], a[8]);
    var s1_7 := Doubled(a[1], a[7]);
    var s2_6 := Doubled(a[2], a[6]);
    var s3_5 := Doubled(a[3], a[5]);
    var p8: u64 := s0_8 + s1_7 + s2_6 + s3_5 + MulNat(a[4], a[4]);
    p := [p7, p8];
  }

  /** Columns 9 to 10 of a square, with doubled limbs. */
  method Sqr9To10(a: seq<u32>) returns (p: seq<u64>)
    requires Operand(a)
    ensures |p| == 2 && forall k :: 0 <= k < 2 ==> p[k] == Column(a, a, k + 9)
  {
    TenTerms(a, a, 9);
    ColumnBound(a, a, 9);
    var s0_9 := Doubled(a[0], a[9]);
    var s1_8 := Doubled(a[1], a[8]);
    var s2_7 := Doubled(a[2], a[7]);
    var s3_6 := Doubled(a[3], a[6]);
    var s4_5 := Doubled(a[4], a[5]);
    var p9: u64 := s0_9 + s1_8 + s2_7 + s3_6 + s4_5;
    TenTerms(a, a, 10);
    ColumnBound(a, a, 10);
    var s1_9 := Doubled(a[1], a[9]);
    var s2_8 := Doubled(a[2], a[8]);
    var s3_7 := Doubled(a[3], a[7]);
    var s4_6 := Doubled(a[4], a[6]);
    var p10: u64 := s1_9 + s2_8 + s3_7 + s4_6 + MulNat(a[5], a[5]);
    p := [p9, p10];
  }

  /** Columns 11 to 13 of a square, with doubled limbs. */
  method Sqr11To13(a: seq<u32>) returns (p: seq<u64>)
    requires Operand(a)
    ensures |p| == 3 && forall k :: 0 <= k < 3 ==> p[k] == Column(a, a, k + 11)
  {
    TenTerms(a, a, 11);
    ColumnBound(a, a, 11);
    var s2_9 := Doubled(a[2], a[9]);
    var s3_8 := Doubled(a[3], a[8]);
    var s4_7 := Doubled(a[4], a[7]);
    var s5_6 := Doubled(a[5], a[6]);
    var p11: u64 := s2_9 + s3_8 + s4_7 + s5_6;
    TenTerms(a, a, 12);
    ColumnBound(a, a, 12);
    var s3_9 := Doubled(a[3], a[9]);
    var s4_8 := Doubled(a[4], a[8]);
    var s5_7 := Doubled(a[5], a[7]);
    var p12: u64 := s3_9 + s4_8 + s5_7 + MulNat(a[6], a[6]);
    TenTerms(a, a, 13);
    ColumnBound(a, a, 13);
    var s4_9 := Doubled(a[4], a[9]);
    var s5_8 := Doubled(a[5], a[8]);
    var s6_7 := Doubled(a[6], a[7]);
    var p13: u64 := s4_9 + s5_8 + s6_7;
    p := [p11, p12, p13];
  }

  /** Columns 14 to 18 of a square, with doubled limbs. */
  method Sqr14To18(a: seq<u32>) returns (p: seq<u64>)
    requires Operand(a)
    ensures |p| == 5 && forall k :: 0 <= k < 5 ==> p[k] == Column(a, a, k + 14)
  {
    TenTerms(a, a, 14);
    ColumnBound(a, a, 14);
    var s5_9 := Doubled(a[5], a[9]);
    var s6_8 := Doubled(a[6], a[8]);
    var p14: u64 := s5_9 + s6_8 + MulNat(a[7], a[7]);
    TenTerms(a, a, 15);
    ColumnBound(a, a, 15);
    var s6_9 := Doubled(a[6], a[9]);
    var s7_8 := Doubled(a[7], a[8]);
    var p15: u64 := s6_9 + s7_8;
    TenTerms(a, a, 16);
    ColumnBound(a, a, 16);
    var s7_9 := Doubled(a[7], a[9]);
    var p16: u64 := s7_9 + MulNat(a[8], a[8]);
    TenTerms(a, a, 17);
    ColumnBound(a, a, 17);
    var s8_9 := Doubled(a[8], a[9]);
    var p17: u64 := s8_9;
    TenTerms(a, a, 18);
    ColumnBound(a, a, 18);
    var p18: u64 := MulNat(a[9], a[9]);
    p := [p14, p15, p16, p17, p18];
  }
}
