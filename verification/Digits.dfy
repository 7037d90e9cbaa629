/**
 Signed digit strings in base 2^b, least significant digit first.
 */
module Digits {
  import opened Arith

  /** The number that the digits stand for: the sum of all d[i] * 2^(b*i). */
  ghost function Eval(d: seq<int>, b: nat): int {
    if |d| == 0 then 0 else d[0] + Pow2(b) * Eval(d[1..], b)
  }

  /** The weight 2^(b*i) of digit i. */
  ghost function Weight(b: nat, i: nat): int {
    if i == 0 then 1 else Pow2(b) * Weight(b, i - 1)
  }

  ghost function Zeros(n: nat): (z: seq<int>)
    ensures |z| == n && forall i :: 0 <= i < n ==> z[i] == 0
  {
    seq(n, _ => 0)
  }

  predicate Odd(x: int) {
    x % 2 == 1
  }

  /** b * i. */
  function Offset(b: nat, i: nat): nat {
    if i == 0 then 0 else Offset(b, i - 1) + b
  }

  lemma {:induction false} OffsetIsProduct(b: nat, i: nat)
    ensures Offset(b, i) == b * i == i * b
    decreases i
  {
    if i > 0 {
      OffsetIsProduct(b, i - 1);
      assert b * i == b * (i - 1) + b;
    }
  }

  lemma {:induction false} OffsetMono(b: nat, i: nat, j: nat)
    requires i <= j
    ensures Offset(b, i) <= Offset(b, j)
    ensures i < j ==> Offset(b, i) + b <= Offset(b, j)
    decreases j
  {
    if i < j {
      OffsetMono(b, i, j - 1);
    }
  }

  lemma {:induction false} WeightIsPow2(b: nat, i: nat)
    ensures Weight(b, i) == Pow2(Offset(b, i))
    decreases i
  {
    if i > 0 {
      WeightIsPow2(b, i - 1);
      Pow2Add(b, Offset(b, i - 1));
    }
  }

  lemma Horner(x: int, p: int, t: int, q: int, v: int)
    ensures x + p * (t + q * v) == (x + p * t) + (p * q) * v
  {
    assert p * (t + q * v) == p * t + p * (q * v);
    assert p * (q * v) == (p * q) * v;
  }

  lemma {:induction false} EvalConcat(d: seq<int>, e: seq<int>, b: nat)
    ensures Eval(d + e, b) == Eval(d, b) + Weight(b, |d|) * Eval(e, b)
    decreases |d|
  {
    if d == [] {
      assert d + e == e;
    } else {
      EvalConcat(d[1..], e, b);
      assert (d + e)[1..] == d[1..] + e;
      Horner(d[0], Pow2(b), Eval(d[1..], b), Weight(b, |d| - 1), Eval(e, b));
    }
  }

  lemma EvalAppend(d: seq<int>, x: int, b: nat)
    ensures Eval(d + [x], b) == Eval(d, b) + Weight(b, |d|) * x
  {
    EvalConcat(d, [x], b);
    assert Eval([x], b) == x + Pow2(b) * Eval([], b);
  }

  lemma {:induction false} EvalZeros(n: nat, b: nat)
    ensures Eval(Zeros(n), b) == 0
  {
    if n > 0 {
      assert Zeros(n)[1..] == Zeros(n - 1);
      EvalZeros(n - 1, b);
    }
  }

  /** Leading zeros do not change the value. */
  lemma EvalPadded(d: seq<int>, e: seq<int>, b: nat)
    requires |d| <= |e| && e[..|d|] == d
    requires forall i :: |d| <= i < |e| ==> e[i] == 0
    ensures Eval(e, b) == Eval(d, b)
  {
    assert e == d + Zeros(|e| - |d|);
    EvalConcat(d, Zeros(|e| - |d|), b);
    EvalZeros(|e| - |d|, b);
  }

  lemma Difference(c: int, w: int, x: int, y: int, t: int)
    ensures c + w * (x + t) == (c + w * (y + t)) + w * (x - y)
  {
  }

  /** Changing one digit changes the value by the digit's weight. */
  lemma EvalUpdate(d: seq<int>, i: nat, x: int, b: nat)
    requires i < |d|
    ensures Eval(d[i := x], b) == Eval(d, b) + Weight(b, i) * (x - d[i])
  {
    var p, q := d[..i], d[i + 1..];
    assert d == p + ([d[i]] + q);
    assert d[i := x] == p + ([x] + q);
    EvalConcat(p, [d[i]] + q, b);
    EvalConcat(p, [x] + q, b);
    assert ([d[i]] + q)[1..] == q && ([x] + q)[1..] == q;
    Difference(Eval(p, b), Weight(b, i), x, d[i], Pow2(b) * Eval(q, b));
  }
}
