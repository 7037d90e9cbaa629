/**
 Reduction of field elements modulo p = 2^256 - 0x1000003D1. The two limb
 layouts differ only in their sizes, which a `Shape` lists.
 */
module FieldReduce {
  import opened Arith
  import opened Bits
  import opened Limbs

  const P: nat := 0xFFFFFFFF_FFFFFFFF_FFFFFFFF_FFFFFFFF_FFFFFFFF_FFFFFFFF_FFFFFFFE_FFFFFC2F
  const FOLD: nat := 0x1000003D1
  const TWO256: nat := P + FOLD

  /** `count` limbs of `radix` in words of `word` values; bit 256 is at `top` in
      the top limb, and 2^256 folds back as c0 in limb 0 and c1 in limb 1. */
  datatype Shape = Shape(radix: nat, word: nat, count: nat, top: nat, c0: nat, c1: nat)

  /** Ten 26-bit limbs in 32-bit words. */
  const TEN: Shape := Shape(0x400_0000, U32, 10, 0x40_0000, 0x3D1, 0x40)

  /** Five 52-bit limbs in 64-bit words. */
  const FIVE: Shape := Shape(0x10_0000_0000_0000, U64, 5, 0x1_0000_0000_0000, 0x1000003D1, 0)

  ghost predicate Known(sh: Shape) {
    sh == TEN || sh == FIVE
  }

  lemma ShapeFacts(sh: Shape)
    requires Known(sh)
    ensures sh.radix >= 2 && sh.word >= 2 && sh.count >= 5 && sh.top >= 2
    ensures sh.c0 + sh.radix * sh.c1 == FOLD && sh.c0 < sh.radix && sh.c1 < sh.radix
    ensures sh.word == (sh.word / sh.radix) * sh.radix && 2 * sh.top + sh.word / sh.radix < sh.word
    ensures sh.word / sh.radix < sh.top
    ensures MulNat(Power(sh.radix, sh.count - 1), sh.top) == TWO256
    ensures MulNat(Power(sh.radix, sh.count - 1), sh.top + sh.word / sh.radix) < 2 * P
  {
    var b := sh.radix;
    assert Power(b, 0) == 1 && Power(b, 1) == b;
    assert Power(b, 2) == b * b;
    assert Power(b, 3) == b * Power(b, 2);
    assert Power(b, 4) == b * Power(b, 3);
    if sh == TEN {
      assert Power(b, 5) == b * Power(b, 4);
      assert Power(b, 6) == b * Power(b, 5);
      assert Power(b, 7) == b * Power(b, 6);
      assert Power(b, 8) == b * Power(b, 7);
      assert Power(b, 9) == b * Power(b, 8);
    }
  }

  /** An element in memory: the right number of limbs, each a word. */
  ghost predicate Element(s: seq<nat>, sh: Shape) {
    |s| == sh.count && Below(s, sh.word)
  }

  /** `secp256k1_fe_verify` for an element of magnitude m. */
  ghost predicate Magnitude(s: seq<nat>, sh: Shape, m: nat) {
    && 0 < |s| == sh.count
    && (forall i :: 0 <= i < |s| - 1 ==> s[i] <= 2 * m * (sh.radix - 1))
    && s[|s| - 1] <= 2 * m * (sh.top - 1)
  }

  /** `secp256k1_fe_verify` for a normalized element. */
  ghost predicate Normalized(s: seq<nat>, sh: Shape) {
    && 0 < |s| == sh.count && Below(s[..|s| - 1], sh.radix) && s[|s| - 1] < sh.top
    && Value(s, sh.radix) < P
  }

  // ---- the first pass ----

  /** `t0 += x * c0; t1 += x * c1`. */
  function Folded(s: seq<nat>, x: nat, sh: Shape): (r: seq<nat>)
    requires |s| >= 2 && sh.word > 0
    ensures |r| == |s|
  {
    s[0 := Add(s[0], MulNat(x, sh.c0), sh.word)][1 := Add(s[1], MulNat(x, sh.c1), sh.word)]
  }

  ghost function FoldLoss(s: seq<nat>, x: nat, sh: Shape): nat
    requires |s| >= 2 && sh.word > 0
  {
    (s[0] + MulNat(x, sh.c0)) / sh.word + MulNat(sh.radix, (s[1] + MulNat(x, sh.c1)) / sh.word)
  }

  lemma FoldArithmetic(v: int, x: int, s0: int, s1: int, c0: int, c1: int, w: int, b: int,
                       w0: int, w1: int, r0: int, r1: int)
    requires s0 + x * c0 == w0 * w + r0 && s1 + x * c1 == w1 * w + r1
    ensures (v + 1 * (r0 - s0)) + b * (r1 - s1) + w * (w0 + b * w1) == v + x * (c0 + b * c1)
  {
    assert b * (s1 + x * c1) == b * (w1 * w + r1);
    assert b * (x * c1) == x * (b * c1);
    assert b * (w1 * w) == w * (b * w1);
    assert x * (c0 + b * c1) == x * c0 + x * (b * c1);
    assert w * (w0 + b * w1) == w * w0 + w * (b * w1);
  }

  lemma TwoUpdates(s: seq<nat>, r0: nat, r1: nat, b: nat)
    requires |s| >= 2
    ensures Value(s[0 := r0][1 := r1], b) == Value(s, b) + 1 * (r0 - s[0]) + b * (r1 - s[1])
  {
    ValueUpdate(s, 0, r0, b);
    ValueUpdate(s[0 := r0], 1, r1, b);
    assert Power(b, 0) == 1 && Power(b, 1) == b;
  }

  lemma FoldedValue(s: seq<nat>, x: nat, sh: Shape)
    requires Known(sh) && Element(s, sh)
    ensures Value(Folded(s, x, sh), sh.radix) + sh.word * FoldLoss(s, x, sh) == Value(s, sh.radix) + x * FOLD
  {
    ShapeFacts(sh);
    var b, w := sh.radix, sh.word;
    var r0, r1 := Add(s[0], MulNat(x, sh.c0), w), Add(s[1], MulNat(x, sh.c1), w);
    DivMod(s[0] + MulNat(x, sh.c0), w);
    DivMod(s[1] + MulNat(x, sh.c1), w);
    TwoUpdates(s, r0, r1, b);
    FoldArithmetic(Value(s, b), x, s[0], s[1], sh.c0, sh.c1, w, b,
                   (s[0] + MulNat(x, sh.c0)) / w, (s[1] + MulNat(x, sh.c1)) / w, r0, r1);
  }

  /** Takes the bits from 2^256 up out of the top limb, folds them back and carries. */
  function FirstPass(s: seq<nat>, sh: Shape): (r: seq<nat>)
    requires sh.radix > 0 && sh.word > 0 && sh.top > 0 && |s| == sh.count >= 2
    ensures |r| == |s|
  {
    var n := |s| - 1;
    Carried(Folded(s[n := s[n] % sh.top], s[n] / sh.top, sh), 0, sh.radix, sh.word)
  }

  /** What the first pass loses to wrapping additions, in units of the word size. */
  ghost function Loss(s: seq<nat>, sh: Shape): nat
    requires sh.radix > 0 && sh.word > 0 && sh.top > 0 && |s| == sh.count >= 2
  {
    var n := |s| - 1;
    var t, x := s[n := s[n] % sh.top], s[n] / sh.top;
    FoldLoss(t, x, sh) + Lost(Folded(t, x, sh), 0, sh.radix, sh.word)
  }

  lemma MaskTop(s: seq<nat>, sh: Shape)
    requires Known(sh) && Element(s, sh)
    ensures var n := |s| - 1;
            Value(s[n := s[n] % sh.top], sh.radix) == Value(s, sh.radix) - (s[n] / sh.top) * TWO256
  {
    ShapeFacts(sh);
    var n := |s| - 1;
    var q, p := s[n] / sh.top, Power(sh.radix, n);
    DivMod(s[n], sh.top);
    ValueUpdate(s, n, s[n] % sh.top, sh.radix);
    TopTimes(p, s[n] % sh.top, s[n], q, sh.top);
  }

  lemma TopTimes(p: int, m: int, t: int, q: int, top: int)
    requires t == q * top + m
    ensures p * (m - t) == -(q * (p * top))
  {
    assert p * (q * top) == q * (p * top);
    assert p * (m - t) == -(p * (q * top));
  }

  lemma FoldedWords(s: seq<nat>, x: nat, sh: Shape)
    requires Known(sh) && Element(s, sh)
    ensures Element(Folded(s, x, sh), sh)
  {
    DivMod(s[0] + MulNat(x, sh.c0), sh.word);
    DivMod(s[1] + MulNat(x, sh.c1), sh.word);
  }

  lemma PassArithmetic(v: int, x: int, w: int, fl: int, l: int, masked: int, folded: int, r: int)
    requires masked == v - x * TWO256 && folded + w * fl == masked + x * FOLD && r + w * l == folded
    ensures r == v - x * P - w * (fl + l)
  {
    assert x * TWO256 == x * P + x * FOLD;
    assert w * (fl + l) == w * fl + w * l;
  }

  /** The first pass subtracts a multiple of p, and whatever it loses. */
  lemma FirstPassValue(s: seq<nat>, sh: Shape)
    requires Known(sh) && Element(s, sh)
    ensures Value(FirstPass(s, sh), sh.radix)
         == Value(s, sh.radix) - (s[|s| - 1] / sh.top) * P - sh.word * Loss(s, sh)
  {
    ShapeFacts(sh);
    var n := |s| - 1;
    var t, x := s[n := s[n] % sh.top], s[n] / sh.top;
    var f := Folded(t, x, sh);
    MaskTop(s, sh);
    FoldedValue(t, x, sh);
    CarriedValue(f, 0, sh.radix, sh.word);
    PassArithmetic(Value(s, sh.radix), x, sh.word, FoldLoss(t, x, sh), Lost(f, 0, sh.radix, sh.word),
                   Value(t, sh.radix), Value(f, sh.radix), Value(FirstPass(s, sh), sh.radix));
  }

  /** Every limb but the top one is reduced, and the top one nearly so. */
  ghost predicate NearlyReduced(r: seq<nat>, sh: Shape)
    requires sh.radix > 0
  {
    && 0 < |r| == sh.count && Below(r[..|r| - 1], sh.radix) && r[|r| - 1] < sh.top + sh.word / sh.radix
  }

  lemma FirstPassLimbs(s: seq<nat>, sh: Shape)
    requires Known(sh) && Element(s, sh)
    ensures NearlyReduced(FirstPass(s, sh), sh)
  {
    ShapeFacts(sh);
    var n := |s| - 1;
    var f := Folded(s[n := s[n] % sh.top], s[n] / sh.top, sh);
    CarriedTop(f, 0, sh.radix, sh.word);
    forall i | 0 <= i < n ensures Carried(f, 0, sh.radix, sh.word)[i] < sh.radix {
      CarriedLimbs(f, 0, sh.radix, sh.word, i);
    }
  }

  // ---- comparison with p ----

  /** The limbs from which on p's limbs are all ones. */
  function FirstOnes(sh: Shape): nat {
    if sh.c1 == 0 then 1 else 2
  }

  /** `t1 + c1 + ((t0 + c0) >> bits) > mask`, or `t0 >= radix - c0` where only
      limb 0 differs from all ones. */
  predicate LowPartAtLeast(r: seq<nat>, sh: Shape)
    requires |r| >= 2 && sh.radix > 0
  {
    if sh.c1 == 0 then r[0] >= sh.radix - sh.c0
    else r[1] + sh.c1 + (r[0] + sh.c0) / sh.radix > sh.radix - 1
  }

  predicate MiddleOnes(r: seq<nat>, sh: Shape) {
    forall i :: FirstOnes(sh) <= i < |r| - 1 ==> r[i] == sh.radix - 1
  }

  lemma Compare(low: int, high: int, p: int, h: int, fold: int)
    requires 0 <= low < p && 0 <= high && p > 0 && 0 < fold < p
    ensures low + p * high + fold >= p * h <==> high >= h || (high == h - 1 && low + fold >= p)
  {
    if high >= h {
      MulMonoInt(h, high, p);
    } else if high == h - 1 {
      assert p * (h - 1) == p * h - p;
    } else {
      MulMonoInt(high, h - 2, p);
      assert p * (h - 2) == p * h - 2 * p;
    }
  }

  lemma MulMonoInt(x: int, y: int, p: int)
    requires x <= y && p >= 0
    ensures p * x <= p * y
  {
    assert p * (y - x) >= 0;
  }

  lemma LowPart(r: seq<nat>, sh: Shape)
    requires Known(sh) && |r| == sh.count && r[0] < sh.radix && r[1] < sh.radix
    ensures var k := FirstOnes(sh);
            && Value(r[..k], sh.radix) < Power(sh.radix, k)
            && (Value(r[..k], sh.radix) + FOLD >= Power(sh.radix, k) <==> LowPartAtLeast(r, sh))
  {
    var b := sh.radix;
    assert Power(b, 0) == 1 && Power(b, 1) == b && Power(b, 2) == b * b;
    if sh == FIVE {
      assert r[..1] == [r[0]] && r[..1][1..] == [];
    } else {
      TwoLimbs(r[0], r[1], b);
      assert r[..2] == [r[0], r[1]];
      DivMod(r[0] + sh.c0, b);
    }
  }

  lemma TwoLimbs(x: nat, y: nat, b: nat)
    ensures Value([x, y], b) == x + b * y
  {
    assert [y][1..] == [] && [x, y][1..] == [y];
    assert Value([y], b) == y;
  }

  lemma HighPart(r: seq<nat>, sh: Shape)
    requires Known(sh) && NearlyReduced(r, sh)
    ensures var k := FirstOnes(sh);
            && Value(r, sh.radix) == Value(r[..k], sh.radix) + Power(sh.radix, k) * Value(r[k..], sh.radix)
            && Power(sh.radix, k) * MulNat(Power(sh.radix, sh.count - 1 - k), sh.top) == TWO256
  {
    ShapeFacts(sh);
    var k := FirstOnes(sh);
    assert r == r[..k] + r[k..];
    ValueConcat(r[..k], r[k..], sh.radix);
    PowerAdd(sh.radix, k, sh.count - 1 - k);
    Assoc3(Power(sh.radix, k), Power(sh.radix, sh.count - 1 - k), sh.top);
  }

  lemma {:induction false} PowerAdd(b: nat, i: nat, j: nat)
    ensures Power(b, i + j) == Power(b, i) * Power(b, j)
    decreases i
  {
    if i > 0 {
      PowerAdd(b, i - 1, j);
      Assoc3(b, Power(b, i - 1), Power(b, j));
    }
  }

  /** Above the low part: at least 2^256 when the top limb is too large, and one
      short of it when all limbs are ones. */
  lemma HighCompare(r: seq<nat>, sh: Shape)
    requires Known(sh) && NearlyReduced(r, sh)
    ensures var k, n := FirstOnes(sh), |r| - 1;
            var h := MulNat(Power(sh.radix, n - k), sh.top);
            && (Value(r[k..], sh.radix) >= h <==> r[n] >= sh.top)
            && (Value(r[k..], sh.radix) == h - 1 <==> r[n] == sh.top - 1 && MiddleOnes(r, sh))
            && Value(r[k..], sh.radix) < 2 * h
  {
    ShapeFacts(sh);
    var k, n := FirstOnes(sh), |r| - 1;
    var t := r[k..];
    assert t[..|t| - 1] == r[..n][k..];
    AllOnes(t, sh.radix, 2 * sh.top);
    TwiceTop(Power(sh.radix, n - k), sh.top);
    if r[n] < sh.top {
      AllOnes(t, sh.radix, sh.top);
      OnesShift(r, t, k, sh);
    } else {
      TopLimb(t, sh.radix, sh.top);
    }
  }

  lemma OnesShift(r: seq<nat>, t: seq<nat>, k: nat, sh: Shape)
    requires k == FirstOnes(sh) < |r| && t == r[k..]
    ensures MiddleOnes(r, sh) <==> forall i :: 0 <= i < |t| - 1 ==> t[i] == sh.radix - 1
  {
    if forall i :: 0 <= i < |t| - 1 ==> t[i] == sh.radix - 1 {
      assert forall i :: k <= i < |r| - 1 ==> r[i] == t[i - k];
    }
  }

  lemma TwiceTop(p: int, top: int)
    ensures p * (2 * top) == 2 * (p * top)
  {
  }

  lemma {:induction false} TopLimb(t: seq<nat>, b: nat, top: nat)
    requires t != [] && t[|t| - 1] >= top
    ensures Value(t, b) >= MulNat(Power(b, |t| - 1), top)
    decreases |t|
  {
    if |t| == 1 {
      assert t[1..] == [];
    } else {
      TopLimb(t[1..], b, top);
      var p := MulNat(Power(b, |t| - 2), top);
      MulMonoInt(p, Value(t[1..], b), b);
      Assoc3(b, Power(b, |t| - 2), top);
    }
  }

  /** `(t9 >> 22) | ((t9 == ...) & (m == ...) & (low part))`. */
  predicate NeedsReduction(r: seq<nat>, sh: Shape)
    requires |r| >= 2 && sh.radix > 0 && sh.top > 0
  {
    var n := |r| - 1;
    r[n] / sh.top == 1 || (r[n] == sh.top - 1 && MiddleOnes(r, sh) && LowPartAtLeast(r, sh))
  }

  /** The test that the code makes says whether the value is at least p. */
  lemma AtLeastP(r: seq<nat>, sh: Shape)
    requires Known(sh) && NearlyReduced(r, sh)
    ensures Value(r, sh.radix) >= P <==> NeedsReduction(r, sh)
    ensures r[|r| - 1] / sh.top <= 1 && Value(r, sh.radix) < 2 * P
  {
    ShapeFacts(sh);
    var k, n := FirstOnes(sh), |r| - 1;
    var b := sh.radix;
    assert r[..n][0] == r[0] && r[..n][1] == r[1];
    HighPart(r, sh);
    HighCompare(r, sh);
    LowPart(r, sh);
    var h := MulNat(Power(b, n - k), sh.top);
    Compare(Value(r[..k], b), Value(r[k..], b), Power(b, k), h, FOLD);
    OneOrNone(r[n], sh.top);
    AllOnes(r, b, sh.top + sh.word / sh.radix);
  }

  lemma OneOrNone(t: nat, top: nat)
    requires top > 0 && t < 2 * top
    ensures t / top == if t >= top then 1 else 0
  {
    if t >= top {
      DivModUnique(t, top, 1, t - top);
    } else {
      ModSmall(t, top);
    }
  }
}
