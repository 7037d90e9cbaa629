/**
 Negation, addition, small multiples and comparison of field elements, with the
 magnitudes that keep every limb inside its word.
 */
module FieldLinear {
  import opened Arith
  import opened Limbs
  import opened FieldReduce
  import opened FieldCanonical
  import opened FieldZero
  import opened Convolution

  /** The largest magnitude that `secp256k1_fe_verify` admits. */
  function MaxMagnitude(sh: Shape): nat {
    SafeMagnitude(sh) + 1
  }

  /** The largest value of limb i at magnitude m. */
  function LimbMax(sh: Shape, m: nat, i: nat): nat
    requires sh.radix > 0 && sh.top > 0
  {
    if i + 1 == sh.count then MulNat(2 * m, sh.top - 1) else MulNat(2 * m, sh.radix - 1)
  }

  lemma LimbMaxFits(s: seq<nat>, sh: Shape, m: nat)
    requires Known(sh) && |s| == sh.count
    ensures Magnitude(s, sh, m) <==> forall i :: 0 <= i < |s| ==> s[i] <= LimbMax(sh, m, i)
    ensures m <= MaxMagnitude(sh) ==> forall i :: 0 <= i < |s| ==> LimbMax(sh, m, i) < sh.word
  {
    if forall i :: 0 <= i < |s| ==> s[i] <= LimbMax(sh, m, i) {
      assert forall i :: 0 <= i < |s| - 1 ==> s[i] <= LimbMax(sh, m, i);
      assert s[|s| - 1] <= LimbMax(sh, m, |s| - 1);
    }
    if m <= MaxMagnitude(sh) {
      WordRoom(sh, m);
    }
  }

  lemma WordRoom(sh: Shape, m: nat)
    requires Known(sh) && m <= MaxMagnitude(sh)
    ensures MulNat(2 * m, sh.radix - 1) < sh.word && MulNat(2 * m, sh.top - 1) < sh.word
  {
  }

  // ---- negation ----

  lemma NegateRoom(sh: Shape, m: nat, i: nat)
    requires Known(sh) && m < MaxMagnitude(sh) && i < sh.count
    ensures LimbMax(sh, m, i) <= MulNat(2 * (m + 1), PrimeLimb(sh, i)) <= LimbMax(sh, m + 1, i) < sh.word
  {
    WordRoom(sh, m + 1);
  }

  lemma NegatedValue(r: seq<nat>, a: seq<nat>, k: nat, sh: Shape)
    requires Known(sh) && |r| == |a| == sh.count
    requires forall i :: 0 <= i < |r| ==> r[i] + a[i] == MulNat(k, PrimeLimb(sh, i))
    ensures Value(r, sh.radix) == k * P - Value(a, sh.radix)
  {
    SumValue(r, a, sh.radix);
    ScaledValue(k, PrimeLimbs(sh), sh.radix);
    assert Sum(r, a) == Scaled(k, PrimeLimbs(sh));
    PrimeValue(sh);
  }

  lemma Opposite(r: int, a: int, k: int)
    requires r == k * P - a
    ensures (r + a) % P == 0
  {
    DivModUnique(r + a, P, k, 0);
  }

  /** The negated limbs: 2 (m + 1) p less the element, limb by limb. */
  function NegatedLimb(x: nat, m: nat, i: nat, sh: Shape): int
    requires Known(sh)
  {
    MulNat(2 * (m + 1), PrimeLimb(sh, i)) - x
  }

  lemma NegatedFits(s: seq<nat>, m: nat, i: nat, sh: Shape)
    requires Known(sh) && i < |s| == sh.count && m < MaxMagnitude(sh) && Magnitude(s, sh, m)
    ensures 0 <= NegatedLimb(s[i], m, i, sh) <= LimbMax(sh, m + 1, i) < sh.word
  {
    LimbMaxFits(s, sh, m);
    NegateRoom(sh, m, i);
  }

  /** `secp256k1_fe_negate`; r may be a itself. */
  method NegateElement(r: array<nat>, a: array<nat>, m: nat, sh: Shape)
    requires Known(sh) && r.Length == sh.count && m < MaxMagnitude(sh) && Magnitude(a[..], sh, m)
    modifies r
    ensures Magnitude(r[..], sh, m + 1) && Element(r[..], sh)
    ensures (Value(r[..], sh.radix) + Value(old(a[..]), sh.radix)) % P == 0
  {
    ghost var s := a[..];
    var i := 0;
    while i < r.Length
      invariant i <= r.Length
      invariant forall j :: i <= j < r.Length ==> a[j] == s[j]
      invariant forall j :: 0 <= j < i ==> r[j] == NegatedLimb(s[j], m, j, sh)
    {
      NegatedFits(s, m, i, sh);
      r[i] := NegatedLimb(a[i], m, i, sh);
      i := i + 1;
    }
    NegatedMeans(r[..], s, m, sh);
  }

  lemma NegatedMeans(r: seq<nat>, s: seq<nat>, m: nat, sh: Shape)
    requires Known(sh) && |r| == |s| == sh.count && m < MaxMagnitude(sh) && Magnitude(s, sh, m)
    requires forall i :: 0 <= i < |r| ==> r[i] == NegatedLimb(s[i], m, i, sh)
    ensures Magnitude(r, sh, m + 1) && Element(r, sh)
    ensures (Value(r, sh.radix) + Value(s, sh.radix)) % P == 0
  {
    forall i | 0 <= i < |r| ensures r[i] <= LimbMax(sh, m + 1, i) < sh.word {
      NegatedFits(s, m, i, sh);
    }
    LimbMaxFits(r, sh, m + 1);
    NegatedValue(r, s, 2 * (m + 1), sh);
    Opposite(Value(r, sh.radix), Value(s, sh.radix), 2 * (m + 1));
  }

  // ---- addition and small multiples ----

  lemma LimbMaxAdd(sh: Shape, m: nat, k: nat, i: nat)
    requires Known(sh)
    ensures LimbMax(sh, m, i) + LimbMax(sh, k, i) == LimbMax(sh, m + k, i)
  {
    var x := if i + 1 == sh.count then sh.top - 1 else sh.radix - 1;
    assert 2 * m * x + 2 * k * x == 2 * (m + k) * x;
  }

  /** `secp256k1_fe_add`; a may be r itself. */
  method AddElement(r: array<nat>, a: array<nat>, ghost m: nat, ghost k: nat, sh: Shape)
    requires Known(sh) && r.Length == sh.count && m + k <= MaxMagnitude(sh)
    requires Magnitude(r[..], sh, m) && Magnitude(a[..], sh, k)
    modifies r
    ensures Magnitude(r[..], sh, m + k) && Element(r[..], sh)
    ensures Value(r[..], sh.radix) == Value(old(r[..]), sh.radix) + Value(old(a[..]), sh.radix)
  {
    ghost var s, t := r[..], a[..];
    AddedMeans(s, t, m, k, sh);
    var i := 0;
    while i < r.Length
      invariant i <= r.Length
      invariant forall j :: i <= j < r.Length ==> r[j] == s[j] && a[j] == t[j]
      invariant forall j :: 0 <= j < i ==> r[j] == s[j] + t[j]
    {
      r[i] := r[i] + a[i];
      i := i + 1;
    }
    assert r[..] == Sum(s, t);
  }

  lemma AddedMeans(s: seq<nat>, t: seq<nat>, m: nat, k: nat, sh: Shape)
    requires Known(sh) && m + k <= MaxMagnitude(sh) && Magnitude(s, sh, m) && Magnitude(t, sh, k)
    ensures Magnitude(Sum(s, t), sh, m + k) && Element(Sum(s, t), sh)
    ensures Value(Sum(s, t), sh.radix) == Value(s, sh.radix) + Value(t, sh.radix)
  {
    LimbMaxFits(s, sh, m);
    LimbMaxFits(t, sh, k);
    forall i | 0 <= i < |s| ensures s[i] + t[i] <= LimbMax(sh, m + k, i) {
      LimbMaxAdd(sh, m, k, i);
    }
    LimbMaxFits(Sum(s, t), sh, m + k);
    SumValue(s, t, sh.radix);
  }

  lemma LimbMaxScale(sh: Shape, m: nat, k: nat, x: nat, i: nat)
    requires Known(sh) && x <= LimbMax(sh, m, i)
    ensures MulNat(k, x) <= LimbMax(sh, MulNat(m, k), i)
  {
    var y := if i + 1 == sh.count then sh.top - 1 else sh.radix - 1;
    MulMono(k, k, x, 2 * m * y);
    assert k * (2 * m * y) == 2 * (m * k) * y;
  }

  /** `secp256k1_fe_mul_int`. */
  method MulIntElement(r: array<nat>, k: nat, ghost m: nat, sh: Shape)
    requires Known(sh) && r.Length == sh.count && MulNat(m, k) <= MaxMagnitude(sh) && Magnitude(r[..], sh, m)
    modifies r
    ensures Magnitude(r[..], sh, m * k) && Element(r[..], sh)
    ensures Value(r[..], sh.radix) == k * Value(old(r[..]), sh.radix)
  {
    ghost var s := r[..];
    ghost var n := MulNat(m, k);
    LimbMaxFits(s, sh, m);
    LimbMaxFits(s, sh, n);
    var i := 0;
    while i < sh.count
      invariant i <= sh.count
      invariant forall j :: i <= j < sh.count ==> r[j] == s[j]
      invariant forall j :: 0 <= j < i ==> r[j] == MulNat(k, s[j]) && r[j] <= LimbMax(sh, n, j)
    {
      LimbMaxScale(sh, m, k, r[i], i);
      r[i] := MulNat(k, r[i]);
      i := i + 1;
    }
    LimbMaxFits(r[..], sh, n);
    ScaledValue(k, s, sh.radix);
    assert r[..] == Scaled(k, s);
  }

  // ---- comparison ----

  lemma {:induction false} BelowPower(s: seq<nat>, b: nat)
    requires b > 0 && Below(s, b)
    ensures Value(s, b) < Power(b, |s|)
    decreases |s|
  {
    if s != [] {
      BelowPower(s[1..], b);
      MulMono(b, b, Value(s[1..], b), Power(b, |s| - 1) - 1);
      assert b * (Power(b, |s| - 1) - 1) == b * Power(b, |s| - 1) - b;
    }
  }

  lemma Decides(u: int, v: int, p: int, x: int, y: int)
    requires 0 <= u < p && 0 <= v < p && x > y
    ensures u + p * x > v + p * y
  {
    MulMonoInt(1, x - y, p);
    assert p * (x - y) == p * x - p * y;
  }

  /** The highest limb that differs decides. */
  lemma FirstDifference(a: seq<nat>, b: seq<nat>, i: nat, sh: Shape)
    requires Known(sh) && |a| == |b| == sh.count
    requires Below(a[..sh.count - 1], sh.radix) && Below(b[..sh.count - 1], sh.radix)
    requires i < sh.count && a[i + 1..] == b[i + 1..] && a[i] > b[i]
    ensures Value(a, sh.radix) > Value(b, sh.radix)
  {
    var r, n := sh.radix, sh.count - 1;
    SplitAt(a, i, r);
    SplitAt(b, i, r);
    assert a[..i] == a[..n][..i] && b[..i] == b[..n][..i];
    BelowPower(a[..i], r);
    BelowPower(b[..i], r);
    Decides(Value(a[..i], r), Value(b[..i], r), Power(r, i), a[i], b[i]);
  }

  lemma SplitAt(a: seq<nat>, i: nat, b: nat)
    requires i < |a|
    ensures Value(a, b) == Value(a[..i], b) + Power(b, i) * a[i] + MulNat(Power(b, i + 1), Value(a[i + 1..], b))
  {
    TakeValue(a, i, b);
    assert a == a[..i + 1] + a[i + 1..];
    ValueConcat(a[..i + 1], a[i + 1..], b);
  }

  /** `secp256k1_fe_cmp_var`, from the top limb down. */
  method CmpVar(a: array<nat>, b: array<nat>, sh: Shape) returns (c: int)
    requires Known(sh) && Normalized(a[..], sh) && Normalized(b[..], sh)
    ensures c == 1 <==> Value(a[..], sh.radix) > Value(b[..], sh.radix)
    ensures c == -1 <==> Value(a[..], sh.radix) < Value(b[..], sh.radix)
    ensures c == 0 <==> Value(a[..], sh.radix) == Value(b[..], sh.radix)
  {
    var i: nat := a.Length;
    while i > 0
      invariant i <= a.Length == b.Length && a[i..] == b[i..]
    {
      i := i - 1;
      assert a[..][i + 1..] == a[i + 1..] && b[..][i + 1..] == b[i + 1..];
      if a[i] > b[i] {
        FirstDifference(a[..], b[..], i, sh);
        return 1;
      }
      if a[i] < b[i] {
        FirstDifference(b[..], a[..], i, sh);
        return -1;
      }
    }
    assert a[0..] == a[..] && b[0..] == b[..];
    return 0;
  }
}
