/**
 The column sums of five-limb multiplication and squaring, written out, and
 `secp256k1_fe_mul` and `secp256k1_fe_sqr` on five limbs.
 */
module FieldMul52 {
  import opened Arith
  import opened Bits
  import opened Limbs
  import opened FieldReduce
  import opened Convolution
  import opened Field5x52

  /** An element of magnitude up to 8. */
  ghost predicate Operand(a: seq<nat>) {
    && |a| == 5 && a[4] < 0x10_0000_0000_0000
    && forall i :: 0 <= i < 4 ==> a[i] < 0x100_0000_0000_0000
  }

  lemma MagnitudeEight(a: seq<nat>, m: nat)
    requires Magnitude(a, FIVE, m) && m <= 8
    ensures Operand(a)
  {
  }

  ghost function TermLimit(i: int, j: int): nat {
    if j < 0 || j > 4 then 0
    else if i == 4 && j == 4 then 0x1_0000_0000_0000_0000_0000_0000_00
    else if i == 4 || j == 4 then 0x10_0000_0000_0000_0000_0000_0000_00
    else 0x1_0000_0000_0000_0000_0000_0000_0000
  }

  lemma TermBound(a: seq<nat>, b: seq<nat>, i: nat, k: nat)
    requires Operand(a) && Operand(b) && i < 5
    ensures Term(a, b, i, k) <= TermLimit(i, k - i)
  {
    if i <= k < i + 5 {
      MulMono(a[i], if i == 4 then 0x10_0000_0000_0000 else 0x100_0000_0000_0000,
              b[k - i], if k - i == 4 then 0x10_0000_0000_0000 else 0x100_0000_0000_0000);
    }
  }

  lemma FiveTerms(a: seq<nat>, b: seq<nat>, k: nat)
    requires |a| == 5
    ensures Column(a, b, k) == Term(a, b, 0, k) + Term(a, b, 1, k) + Term(a, b, 2, k) + Term(a, b, 3, k)
      + Term(a, b, 4, k)
  {
    assert Partial(a, b, 1, k) == Term(a, b, 0, k);
    assert Partial(a, b, 3, k) == Partial(a, b, 1, k) + Term(a, b, 1, k) + Term(a, b, 2, k);
    assert Partial(a, b, 5, k) == Partial(a, b, 3, k) + Term(a, b, 3, k) + Term(a, b, 4, k);
  }

  /** No column sum leaves its two registers. */
  lemma ColumnBound(a: seq<nat>, b: seq<nat>, k: nat)
    requires Operand(a) && Operand(b) && k < 9
    ensures Column(a, b, k) <= 0x5_0000_0000_0000_0000_0000_0000_0000
    ensures k == 7 ==> Column(a, b, k) <= 0x20_0000_0000_0000_0000_0000_0000_00
    ensures k == 8 ==> Column(a, b, k) <= 0x1_0000_0000_0000_0000_0000_0000_00
  {
    FiveTerms(a, b, k);
    TermBound(a, b, 0, k);
    TermBound(a, b, 1, k);
    TermBound(a, b, 2, k);
    TermBound(a, b, 3, k);
    TermBound(a, b, 4, k);
  }

  lemma SumsFit(a: seq<nat>, b: seq<nat>, p: seq<nat>)
    requires Operand(a) && Operand(b) && |p| == 9 && forall k :: 0 <= k < 9 ==> p[k] == Column(a, b, k)
    ensures ColumnSums(p)
  {
    forall k | 0 <= k < 9
      ensures p[k] <= 0x5_0000_0000_0000_0000_0000_0000_0000
      ensures k == 7 ==> p[k] <= 0x20_0000_0000_0000_0000_0000_0000_00
      ensures k == 8 ==> p[k] <= 0x1_0000_0000_0000_0000_0000_0000_00
    {
      ColumnBound(a, b, k);
    }
  }

  method MulColumns(a: seq<u64>, b: seq<u64>) returns (p: seq<u128>)
    requires Operand(a) && Operand(b)
    ensures |p| == 9 && forall k :: 0 <= k < 9 ==> p[k] == Column(a, b, k)
  {
    FiveTerms(a, b, 3);
    ColumnBound(a, b, 3);
    var p3: u128 := MulNat(a[3], b[0]) + MulNat(a[2], b[1]) + MulNat(a[1], b[2]) + MulNat(a[0], b[3]);
    FiveTerms(a, b, 8);
    ColumnBound(a, b, 8);
    var p8: u128 := MulNat(a[4], b[4]);
    FiveTerms(a, b, 4);
    ColumnBound(a, b, 4);
    var p4: u128 := MulNat(a[4], b[0]) + MulNat(a[3], b[1]) + MulNat(a[2], b[2]) + MulNat(a[1], b[3])
                  + MulNat(a[0], b[4]);
    FiveTerms(a, b, 0);
    ColumnBound(a, b, 0);
    var p0: u128 := MulNat(a[0], b[0]);
    FiveTerms(a, b, 5);
    ColumnBound(a, b, 5);
    var p5: u128 := MulNat(a[4], b[1]) + MulNat(a[3], b[2]) + MulNat(a[2], b[3]) + MulNat(a[1], b[4]);
    FiveTerms(a, b, 1);
    ColumnBound(a, b, 1);
    var p1: u128 := MulNat(a[1], b[0]) + MulNat(a[0], b[1]);
    FiveTerms(a, b, 6);
    ColumnBound(a, b, 6);
    var p6: u128 := MulNat(a[4], b[2]) + MulNat(a[3], b[3]) + MulNat(a[2], b[4]);
    FiveTerms(a, b, 2);
    ColumnBound(a, b, 2);
    var p2: u128 := MulNat(a[2], b[0]) + MulNat(a[1], b[1]) + MulNat(a[0], b[2]);
    FiveTerms(a, b, 7);
    ColumnBound(a, b, 7);
    var p7: u128 := MulNat(a[4], b[3]) + MulNat(a[3], b[4]);
    p := [p0, p1, p2, p3, p4, p5, p6, p7, p8];
  }

  /** A product with one factor doubled beforehand: both products of a pair. */
  method Doubled(x2: u64, x: u64, y: u64) returns (s: u128)
    requires x2 == 2 * x && x < 0x100_0000_0000_0000 && y < 0x100_0000_0000_0000
    ensures s == MulNat(x, y) + MulNat(y, x)
  {
    MulMono(x2, 0x200_0000_0000_0000, y, 0x100_0000_0000_0000);
    Double(x, y);
    s := MulNat(x2, y);
  }

  method SqrColumns(a: seq<u64>) returns (p: seq<u128>)
    requires Operand(a)
    ensures |p| == 9 && forall k :: 0 <= k < 9 ==> p[k] == Column(a, a, k)
  {
    forall k | 0 <= k < 9 ensures Column(a, a, k) <= 0x5_0000_0000_0000_0000_0000_0000_0000 {
      ColumnBound(a, a, k);
    }
    var a0, a1, a2, a3, a4 := a[0], a[1], a[2], a[3], a[4];
    var s03 := Doubled(a0 * 2, a0, a3);
    var s12 := Doubled(a1 * 2, a1, a2);
    FiveTerms(a, a, 3);
    var p3: u128 := s03 + s12;
    FiveTerms(a, a, 8);
    var p8: u128 := MulNat(a4, a4);
    var a4x2: u64 := a4 + a4;
    var s04 := Doubled(a4x2, a4, a0);
    var s13 := Doubled(a1 * 2, a1, a3);
    FiveTerms(a, a, 4);
    var p4: u128 := s04 + s13 + MulNat(a2, a2);
    FiveTerms(a, a, 0);
    var p0: u128 := MulNat(a0, a0);
    var s14 := Doubled(a4x2, a4, a1);
    var s23 := Doubled(a2 * 2, a2, a3);
    FiveTerms(a, a, 5);
    var p5: u128 := s14 + s23;
    var a0x2: u64 := a0 + a0;
    FiveTerms(a, a, 1);
    var p1 := Doubled(a0x2, a0, a1);
    var s24 := Doubled(a4x2, a4, a2);
    FiveTerms(a, a, 6);
    var p6: u128 := s24 + MulNat(a3, a3);
    var s02 := Doubled(a0x2, a0, a2);
    FiveTerms(a, a, 2);
    var p2: u128 := s02 + MulNat(a1, a1);
    FiveTerms(a, a, 7);
    var p7 := Doubled(a4x2, a4, a3);
    p := [p0, p1, p2, p3, p4, p5, p6, p7, p8];
  }

  method Store(r: array<nat>, s: seq<nat>)
    requires r.Length == 5 == |s|
    modifies r
    ensures r[..] == s
  {
    r[0], r[1], r[2], r[3], r[4] := s[0], s[1], s[2], s[3], s[4];
  }

  lemma OutputMagnitude(r: seq<nat>)
    requires Output(r)
    ensures Magnitude(r, FIVE, 1)
  {
  }

  /** `secp256k1_fe_mul`: factors of magnitude up to 8, a product of magnitude 1.
      The result may overwrite a. */
  method Mul(r: array<nat>, a: array<nat>, b: array<nat>, ghost ma: nat, ghost mb: nat)
    requires r.Length == 5 && r != b && ma <= 8 && mb <= 8
    requires Magnitude(a[..], FIVE, ma) && Magnitude(b[..], FIVE, mb)
    modifies r
    ensures Magnitude(r[..], FIVE, 1) && Output(r[..])
    ensures Value(r[..], B52) % P == (Value(old(a[..]), B52) * Value(old(b[..]), B52)) % P
  {
    ghost var x, y := a[..], b[..];
    MagnitudeEight(x, ma);
    MagnitudeEight(y, mb);
    var p := MulColumns(a[..], b[..]);
    SumsFit(x, y, p);
    var s := FoldColumns(p);
    ProductValue(x, y, p, B52);
    OutputMagnitude(s);
    Store(r, s);
  }

  /** `secp256k1_fe_sqr`. */
  method Sqr(r: array<nat>, a: array<nat>, ghost m: nat)
    requires r.Length == 5 && Magnitude(a[..], FIVE, m) && m <= 8
    modifies r
    ensures Magnitude(r[..], FIVE, 1) && Output(r[..])
    ensures Value(r[..], B52) % P == (Value(old(a[..]), B52) * Value(old(a[..]), B52)) % P
  {
    ghost var x := a[..];
    MagnitudeEight(x, m);
    var p := SqrColumns(a[..]);
    SumsFit(x, x, p);
    var s := FoldColumns(p);
    ProductValue(x, x, p, B52);
    OutputMagnitude(s);
    Store(r, s);
  }
}
