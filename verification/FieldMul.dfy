/**
 `secp256k1_fe_mul` and `secp256k1_fe_sqr` on ten limbs.
 */
module FieldMul {
  import opened Bits
  import opened Limbs
  import opened FieldReduce
  import opened Convolution
  import opened Field10x26
  import opened FieldColumns

  lemma SumsFit(a: seq<nat>, b: seq<nat>, p: seq<nat>)
    requires Operand(a) && Operand(b) && |p| == 19 && forall k :: 0 <= k < 19 ==> p[k] == Column(a, b, k)
    ensures ColumnSums(p)
  {
    forall k | 0 <= k < 19
      ensures k < 10 ==> p[k] <= 9 * SQ
      ensures 10 <= k ==> p[k] < 0x7F00_0000_0000_0000
      ensures k == 18 ==> p[k] <= 0x3FFFFFF * 0x3FFFFFF
    {
      ColumnBound(a, b, k);
    }
  }

  method Store(r: array<nat>, s: seq<nat>)
    requires r.Length == 10 == |s|
    modifies r
    ensures r[..] == s
  {
    r[0], r[1], r[2], r[3], r[4] := s[0], s[1], s[2], s[3], s[4];
    r[5], r[6], r[7], r[8], r[9] := s[5], s[6], s[7], s[8], s[9];
  }

  /** `secp256k1_fe_mul_inner`. The result may overwrite a. */
  method MulInner(r: array<nat>, a: array<nat>, b: array<nat>)
    requires r.Length == 10 && Operand(a[..]) && Operand(b[..]) && r != b
    modifies r
    ensures Output(r[..])
    ensures Value(r[..], B26) % P == (Value(old(a[..]), B26) * Value(old(b[..]), B26)) % P
  {
    ghost var x, y := a[..], b[..];
    var p := ProductColumns(a[..], b[..]);
    SumsFit(x, y, p);
    var s := FoldColumns(p);
    ProductValue(x, y, p, B26);
    Store(r, s);
  }

  method ProductColumns(a: seq<u32>, b: seq<u32>) returns (p: seq<u64>)
    requires Operand(a) && Operand(b)
    ensures |p| == 19 && forall k :: 0 <= k < 19 ==> p[k] == Column(a, b, k)
  {
    var p0 := Mul0To3(a, b);
    var p4 := Mul4To6(a, b);
    var p7 := Mul7To8(a, b);
    var p9 := Mul9To10(a, b);
    var p11 := Mul11To13(a, b);
    var p14 := Mul14To18(a, b);
    p := p0 + p4 + p7 + p9 + p11 + p14;
  }

  method SquareColumns(a: seq<u32>) returns (p: seq<u64>)
    requires Operand(a)
    ensures |p| == 19 && forall k :: 0 <= k < 19 ==> p[k] == Column(a, a, k)
  {
    var p0 := Sqr0To3(a);
    var p4 := Sqr4To6(a);
    var p7 := Sqr7To8(a);
    var p9 := Sqr9To10(a);
    var p11 := Sqr11To13(a);
    var p14 := Sqr14To18(a);
    p := p0 + p4 + p7 + p9 + p11 + p14;
  }

  /** `secp256k1_fe_sqr_inner`. The result may overwrite a. */
  method SqrInner(r: array<nat>, a: array<nat>)
    requires r.Length == 10 && Operand(a[..])
    modifies r
    ensures Output(r[..])
    ensures Value(r[..], B26) % P == (Value(old(a[..]), B26) * Value(old(a[..]), B26)) % P
  {
    ghost var x := a[..];
    var p := SquareColumns(a[..]);
    SumsFit(x, x, p);
    var s := FoldColumns(p);
    ProductValue(x, x, p, B26);
    Store(r, s);
  }

  lemma MagnitudeEight(a: seq<nat>, m: nat)
    requires Magnitude(a, TEN, m) && m <= 8
    ensures Operand(a)
  {
  }

  lemma OutputMagnitude(r: seq<nat>)
    requires Output(r)
    ensures Magnitude(r, TEN, 1)
  {
  }

  /** `secp256k1_fe_mul`: factors of magnitude up to 8, a product of magnitude 1. */
  method Mul(r: array<nat>, a: array<nat>, b: array<nat>, ghost ma: nat, ghost mb: nat)
    requires r.Length == 10 && r != b && ma <= 8 && mb <= 8
    requires Magnitude(a[..], TEN, ma) && Magnitude(b[..], TEN, mb)
    modifies r
    ensures Magnitude(r[..], TEN, 1)
    ensures Value(r[..], B26) % P == (Value(old(a[..]), B26) * Value(old(b[..]), B26)) % P
  {
    MagnitudeEight(a[..], ma);
    MagnitudeEight(b[..], mb);
    MulInner(r, a, b);
    OutputMagnitude(r[..]);
  }

  /** `secp256k1_fe_sqr`. */
  method Sqr(r: array<nat>, a: array<nat>, ghost m: nat)
    requires r.Length == 10 && Magnitude(a[..], TEN, m) && m <= 8
    modifies r
    ensures Magnitude(r[..], TEN, 1)
    ensures Value(r[..], B26) % P == (Value(old(a[..]), B26) * Value(old(a[..]), B26)) % P
  {
    MagnitudeEight(a[..], m);
    SqrInner(r, a);
    OutputMagnitude(r[..]);
  }
}
