/**
 Constant-time point multiplication, `secp256k1_ecmult_const`.
 */
module EcmultConst {
  import opened Arith
  import opened Digits
  import opened Scalars
  import opened CurveGroup
  import opened OddMultiples
  import FixedWnaf
  import ConstWnaf

  const WINDOW_A: nat := 5
  const W: nat := 4

  /** `secp256k1_gej_double_nonzero`, which must not see infinity. */
  method DoubleNonzero<P(==, !new)>(g: Group<P>, a: P) returns (r: P)
    requires a != g.zero
    ensures r == g.add(a, a)
  {
    r := g.add(a, a);
  }

  /** `secp256k1_gej_add_ge`, whose second argument must not be infinity. */
  method AddGe<P(==, !new)>(g: Group<P>, a: P, b: P) returns (r: P)
    requires b != g.zero
    ensures r == g.add(a, b)
  {
    r := g.add(a, b);
  }

  /** A multiple that is not divisible by N is not infinity. */
  lemma NotInfinity<P(!new)>(g: Group<P>, k: int, a: P)
    requires PrimeOrder(g) && a != g.zero && k % N != 0
    ensures Mul(g, k, a) != g.zero
  {
    assert AtMul(k, a);
  }

  lemma Bound(w: nat, x: int, e: int, q: int)
    requires Abs(x) < q && Abs(e) < w
    ensures Abs(x + q * e) < q * w
  {
    if e >= 0 {
      MulMono(e, w - 1, q, q);
    } else {
      MulMono(-e, w - 1, q, q);
    }
    assert (w - 1) * q == q * w - q;
    assert q * (-e) == -(q * e);
  }

  /** Digits below the base stand for less than the next weight. */
  lemma {:induction false} EvalBound(d: seq<int>, w: nat)
    requires forall i :: 0 <= i < |d| ==> Abs(d[i]) < Pow2(w)
    ensures Abs(Eval(d, w)) < Weight(w, |d|)
    decreases |d|
  {
    if d != [] {
      EvalBound(d[1..], w);
      Bound(Weight(w, |d| - 1), d[0], Eval(d[1..], w), Pow2(w));
    }
  }

  lemma PartBound(w: int, low: int, high: int, total: int, m: int)
    requires w >= 1 && Abs(low) < w && total == low + w * high && Abs(total) <= m
    ensures Abs(high) <= m + 1
  {
    var up, down := high - 1, -high - 1;
    assert w * high == w * up + w && w * high == -(w * down) - w;
    if high > m + 1 {
      MulMono(1, w, m + 1, up);
    } else if high < -(m + 1) {
      MulMono(1, w, m + 1, down);
    }
  }

  lemma TopBound(d: seq<int>, i: nat, m: int)
    requires i < |d| && Abs(Eval(d, W)) <= m
    requires forall j :: 0 <= j < |d| ==> Abs(d[j]) < Pow2(W)
    ensures Abs(Eval(d[i..], W)) <= m + 1
  {
    var low, high := d[..i], d[i..];
    assert d == low + high;
    EvalConcat(low, high, W);
    EvalBound(low, W);
    WeightPositive(i);
    PartBound(Weight(W, i), Eval(low, W), Eval(high, W), Eval(d, W), m);
  }

  lemma TopIsOdd(d: seq<int>)
    requires d != [] && Odd(d[0])
    ensures Odd(Eval(d, W))
  {
    assert Pow2(W) == 16;
  }

  /** The values that the loop passes through are odd and too small to be
      multiples of N. */
  lemma TopIsNotZero(d: seq<int>, s: Scalar, size: nat, skew: int, i: nat)
    requires ConstWnaf.Recoding(d, s, W, size, skew) && i < |d|
    ensures Eval(d[i..], W) % N != 0
  {
    TopBound(d, i, HALF_N + 2);
    TopIsOdd(d[i..]);
    OddIsNotZero(Eval(d[i..], W));
  }

  lemma OddIsNotZero(x: int)
    requires Odd(x) && Abs(x) <= HALF_N + 3
    ensures x % N != 0
  {
  }

  lemma WeightPositive(i: nat)
    ensures Weight(W, i) >= 1
  {
    WeightIsPow2(W, i);
  }

  /** ECMULT_CONST_TABLE_GET_GE: scans the whole table and keeps the entry at |n| / 2. */
  method ConstGet<P(==, !new)>(g: Group<P>, pre: seq<P>, n: int, ghost a: P) returns (r: P)
    requires Laws(g) && |pre| == TableSize(WINDOW_A) && IsTable(g, pre, a)
    requires Odd(n) && Abs(n) < Pow2(WINDOW_A - 1)
    ensures r == Mul(g, n, a)
  {
    var absN := n * (if n > 0 then 1 else -1);
    var idxN := absN / 2;
    r := g.zero;
    for m := 0 to |pre|
      invariant m > idxN ==> r == pre[idxN]
    {
      if m == idxN {
        r := pre[m];
      }
    }
    assert Pow2(WINDOW_A - 1) == 2 * Pow2(WINDOW_A - 2);
    if n != absN {
      MulNeg(g, absN, a);
      r := g.neg(r);
    }
  }

  /** Four doublings, none of them of infinity. */
  method DoubleWindow<P(==, !new)>(g: Group<P>, r0: P, ghost k: int, ghost a: P) returns (r: P)
    requires Laws(g) && PrimeOrder(g) && a != g.zero
    requires r0 == Mul(g, k, a) && k % N != 0
    ensures r == Mul(g, 16 * k, a)
  {
    r := r0;
    ghost var m := k;
    for j := 0 to W
      invariant r == Mul(g, m, a) && m == Doubled(k, j) && m % N != 0
    {
      NotInfinity(g, m, a);
      MulAdd(g, m, m, a);
      TwiceNotZero(m);
      r := DoubleNonzero(g, r);
      m := m + m;
    }
    assert Doubled(k, 1) == 2 * k && Doubled(k, 3) == 2 * Doubled(k, 2);
  }

  ghost function Doubled(k: int, j: nat): int {
    if j == 0 then k else 2 * Doubled(k, j - 1)
  }

  lemma TwiceNotZero(m: int)
    requires m % N != 0
    ensures (m + m) % N != 0
  {
  }

  /** Undoes the skew: subtracts a, or 2a. */
  method Unskew<P(==, !new)>(g: Group<P>, r0: P, a: P, ghost k: int, skew: int) returns (r: P)
    requires Laws(g) && PrimeOrder(g) && a != g.zero && (skew == 1 || skew == 2)
    requires r0 == Mul(g, k, a)
    ensures r == Mul(g, k - skew, a)
  {
    var correction := a;
    if skew == 2 {
      correction := g.add(a, a);
    }
    MulSmall(g, a);
    MulNeg(g, skew, a);
    NotInfinity(g, -skew, a);
    MulAdd(g, k, -skew, a);
    r := AddGe(g, r0, g.neg(correction));
  }

  /** r = q * a. `size` is the bit length that the digits are laid out for. */
  method Multiply<P(==, !new)>(g: Group<P>, a: P, q: Scalar, size: nat) returns (r: P)
    requires Laws(g) && PrimeOrder(g) && a != g.zero
    requires size > 0 && ConstWnaf.Fits(q, W, size)
    ensures r == Mul(g, q, a)
  {
    var words := FixedWnaf.SizeBits(size, W);
    var wnaf := new int[words + 1];
    var skew := ConstWnaf.Recode(wnaf, q, W, size);
    ghost var d := wnaf[..];
    assert Pow2(WINDOW_A - 1) == Pow2(W);

    var preA := new P[TableSize(WINDOW_A)](_ => g.zero);
    Build(g, preA, 0, preA.Length, a);
    var pre := preA[0..preA.Length];

    TopDigit(d);
    r := ConstGet(g, pre, wnaf[words], a);
    for i := words downto 0
      invariant r == Mul(g, Eval(d[i..], W), a) && wnaf[..] == d
    {
      TopIsNotZero(d, q, size, skew, i + 1);
      r := DoubleWindow(g, r, Eval(d[i + 1..], W), a);
      var n := wnaf[i];
      var t := ConstGet(g, pre, n, a);
      DigitNotInfinity(g, n, a);
      HornerStep(g, d, i, a);
      r := AddGe(g, r, t);
    }
    assert d[0..] == d;
    r := Unskew(g, r, a, Eval(d, W), skew);
    SkewedValue(g, d, q, size, skew, a);
  }

  lemma SkewedValue<P(!new)>(g: Group<P>, d: seq<int>, q: Scalar, size: nat, skew: int, a: P)
    requires Laws(g) && ConstWnaf.Recoding(d, q, W, size, skew)
    ensures Mul(g, Eval(d, W) - skew, a) == Mul(g, q, a)
  {
    CongruentMod(Eval(d, W) - skew, q);
    MulCongruent(g, Eval(d, W) - skew, q, a);
  }

  lemma TopDigit(d: seq<int>)
    requires d != []
    ensures Eval(d[|d| - 1..], W) == d[|d| - 1]
  {
    assert d[|d| - 1..] == [d[|d| - 1]];
  }

  lemma DigitNotInfinity<P(!new)>(g: Group<P>, n: int, a: P)
    requires PrimeOrder(g) && a != g.zero && ConstWnaf.OddDigit(n, W)
    ensures Mul(g, n, a) != g.zero
  {
    assert Pow2(W) == 16;
    OddIsNotZero(n);
    NotInfinity(g, n, a);
  }

  lemma HornerStep<P(!new)>(g: Group<P>, d: seq<int>, i: nat, a: P)
    requires Laws(g) && i < |d|
    ensures Mul(g, Eval(d[i..], W), a) == g.add(Mul(g, 16 * Eval(d[i + 1..], W), a), Mul(g, d[i], a))
  {
    assert d[i..][1..] == d[i + 1..];
    assert Pow2(W) == 16;
    MulAdd(g, 16 * Eval(d[i + 1..], W), d[i], a);
  }
}
