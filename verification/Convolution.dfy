/**
 Schoolbook multiplication of limb strings: the column sums of the partial
 products are the limbs of the product.
 */
module Convolution {
  import opened Limbs

  /** The partial product a[i] * b[k - i], where there is one. */
  function Term(a: seq<nat>, b: seq<nat>, i: nat, k: nat): nat
    requires i < |a|
  {
    if i <= k < i + |b| then MulNat(a[i], b[k - i]) else 0
  }

  /** The sum of the partial products of the first n rows in column k. */
  ghost function Partial(a: seq<nat>, b: seq<nat>, n: nat, k: nat): nat
    requires n <= |a|
  {
    if n == 0 then 0 else Partial(a, b, n - 1, k) + Term(a, b, n - 1, k)
  }

  /** `px`, the sum of a[i] * b[x - i]. */
  ghost function Column(a: seq<nat>, b: seq<nat>, x: nat): nat {
    Partial(a, b, |a|, x)
  }

  /** p holds the partial sums of the first n rows, column by column. */
  ghost predicate Holds(p: seq<nat>, a: seq<nat>, b: seq<nat>, n: nat)
    requires n <= |a|
  {
    |p| == |a| + |b| && forall k :: 0 <= k < |p| ==> p[k] == Partial(a, b, n, k)
  }

  ghost function PartialSums(a: seq<nat>, b: seq<nat>, n: nat): (p: seq<nat>)
    requires n <= |a|
    ensures Holds(p, a, b, n)
  {
    seq(|a| + |b|, k requires 0 <= k => Partial(a, b, n, k))
  }

  ghost function Sum(s: seq<nat>, t: seq<nat>): (r: seq<nat>)
    requires |s| == |t|
    ensures |r| == |s| && forall i :: 0 <= i < |s| ==> r[i] == s[i] + t[i]
  {
    seq(|s|, i requires 0 <= i < |s| && |s| == |t| => s[i] + t[i])
  }

  ghost function Scaled(x: nat, s: seq<nat>): (r: seq<nat>)
    ensures |r| == |s| && forall i :: 0 <= i < |s| ==> r[i] == MulNat(x, s[i])
  {
    seq(|s|, i requires 0 <= i < |s| => MulNat(x, s[i]))
  }

  ghost function Zero(n: nat): (r: seq<nat>)
    ensures |r| == n && forall i :: 0 <= i < n ==> r[i] == 0
  {
    seq(n, _ => 0)
  }

  lemma {:induction false} SumValue(s: seq<nat>, t: seq<nat>, b: nat)
    requires |s| == |t|
    ensures Value(Sum(s, t), b) == Value(s, b) + Value(t, b)
    decreases |s|
  {
    if s != [] {
      SumValue(s[1..], t[1..], b);
      assert Sum(s, t)[1..] == Sum(s[1..], t[1..]);
      Distribute(b, Value(s[1..], b), Value(t[1..], b));
    }
  }

  lemma Distribute(b: int, x: int, y: int)
    ensures b * (x + y) == b * x + b * y
  {
  }

  lemma {:induction false} ScaledValue(x: nat, s: seq<nat>, b: nat)
    ensures Value(Scaled(x, s), b) == x * Value(s, b)
    decreases |s|
  {
    if s != [] {
      ScaledValue(x, s[1..], b);
      assert Scaled(x, s)[1..] == Scaled(x, s[1..]);
      var v := Value(s[1..], b);
      assert b * (x * v) == x * (b * v);
      Distribute(x, b * v, s[0]);
    }
  }

  lemma {:induction false} ZeroIsZero(n: nat, b: nat)
    ensures Value(Zero(n), b) == 0
  {
    if n > 0 {
      ZeroIsZero(n - 1, b);
      assert Zero(n)[1..] == Zero(n - 1);
    }
  }

  /** Row i of the scheme, shifted into place. */
  ghost function Row(a: seq<nat>, b: seq<nat>, i: nat): (r: seq<nat>)
    requires i < |a|
    ensures |r| == |a| + |b|
    ensures forall k :: 0 <= k < |r| ==> r[k] == Term(a, b, i, k)
  {
    Zero(i) + (Scaled(a[i], b) + Zero(|a| - i))
  }

  lemma RowValue(a: seq<nat>, b: seq<nat>, i: nat, radix: nat)
    requires i < |a|
    ensures Value(Row(a, b, i), radix) == Power(radix, i) * (a[i] * Value(b, radix))
  {
    var s := Scaled(a[i], b);
    ValueConcat(Zero(i), s + Zero(|a| - i), radix);
    ValueConcat(s, Zero(|a| - i), radix);
    ZeroIsZero(i, radix);
    ZeroIsZero(|a| - i, radix);
    ScaledValue(a[i], b, radix);
  }

  lemma TakeValue(a: seq<nat>, n: nat, b: nat)
    requires n < |a|
    ensures Value(a[..n + 1], b) == Value(a[..n], b) + Power(b, n) * a[n]
  {
    assert a[..n + 1] == a[..n] + [a[n]];
    ValueConcat(a[..n], [a[n]], b);
    assert [a[n]][1..] == [];
  }

  lemma RowStep(u: int, v: int, p: int, x: int)
    ensures u * v + p * (x * v) == (u + p * x) * v
  {
    assert p * (x * v) == (p * x) * v;
  }

  lemma {:induction false} PartialValue(a: seq<nat>, b: seq<nat>, n: nat, radix: nat)
    requires n <= |a|
    ensures Value(PartialSums(a, b, n), radix) == Value(a[..n], radix) * Value(b, radix)
    decreases n
  {
    var p := PartialSums(a, b, n);
    if n == 0 {
      assert p == Zero(|p|);
      ZeroIsZero(|p|, radix);
      assert a[..0] == [];
    } else {
      var q := PartialSums(a, b, n - 1);
      PartialValue(a, b, n - 1, radix);
      assert p == Sum(q, Row(a, b, n - 1));
      SumValue(q, Row(a, b, n - 1), radix);
      RowValue(a, b, n - 1, radix);
      TakeValue(a, n - 1, radix);
      RowStep(Value(a[..n - 1], radix), Value(b, radix), Power(radix, n - 1), a[n - 1]);
    }
  }

  lemma {:induction false} BeyondLast(a: seq<nat>, b: seq<nat>, n: nat, k: nat)
    requires n <= |a| && k + 1 >= |a| + |b|
    ensures Partial(a, b, n, k) == 0
    decreases n
  {
    if n > 0 {
      BeyondLast(a, b, n - 1, k);
    }
  }

  lemma TrailingZero(p: seq<nat>, radix: nat)
    ensures Value(p + [0], radix) == Value(p, radix)
  {
    ValueConcat(p, [0], radix);
    assert [0][1..] == [] && Value([0], radix) == 0;
  }

  /** The columns are the limbs of the product. */
  lemma ProductValue(a: seq<nat>, b: seq<nat>, p: seq<nat>, radix: nat)
    requires |p| + 1 == |a| + |b|
    requires forall k :: 0 <= k < |p| ==> p[k] == Column(a, b, k)
    ensures Value(p, radix) == Value(a, radix) * Value(b, radix)
  {
    var q := PartialSums(a, b, |a|);
    assert q == p + [0] by {
      BeyondLast(a, b, |a|, |p|);
    }
    TrailingZero(p, radix);
    PartialValue(a, b, |a|, radix);
    assert a[..|a|] == a;
  }
}
