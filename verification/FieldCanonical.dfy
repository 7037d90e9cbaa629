/**
 What normalization computes: the loss of the first pass and when there is none,
 the second pass, and the uniqueness of its result.
 */
module FieldCanonical {
  import opened Arith
  import opened Limbs
  import opened FieldReduce

  // ---- when the first pass keeps the residue ----

  /** No addition of the carry pass wraps. */
  predicate CarriesFit(s: seq<nat>, c: nat, sh: Shape)
    requires sh.radix > 0
  {
    if s == [] then true
    else s[0] + c < sh.word && (|s| == 1 || CarriesFit(s[1..], (s[0] + c) / sh.radix, sh))
  }

  /** No addition of the first pass wraps: what a caller can check beforehand. */
  predicate FirstPassFits(s: seq<nat>, sh: Shape)
    requires sh.radix > 0 && sh.word > 0 && sh.top > 0 && |s| == sh.count >= 2
  {
    var n := |s| - 1;
    var t, x := s[n := s[n] % sh.top], s[n] / sh.top;
    && t[0] + MulNat(x, sh.c0) < sh.word && t[1] + MulNat(x, sh.c1) < sh.word
    && CarriesFit(Folded(t, x, sh), 0, sh)
  }

  lemma WrapsOrNot(x: nat, w: nat)
    requires w > 0
    ensures x / w == 0 <==> x < w
    ensures x < w ==> x % w == x
  {
    DivMod(x, w);
    if x < w {
      ModSmall(x, w);
    }
  }

  lemma SumIsZero(x: nat, b: nat, y: nat)
    requires b > 0
    ensures x + b * y == 0 <==> x == 0 && y == 0
  {
    if y > 0 {
      MulMono(1, b, 1, y);
    }
  }

  lemma {:induction false} CarriesFitExactly(s: seq<nat>, c: nat, sh: Shape)
    requires sh.radix > 0 && sh.word > 0
    ensures CarriesFit(s, c, sh) <==> Lost(s, c, sh.radix, sh.word) == 0
    decreases |s|
  {
    if s != [] {
      WrapsOrNot(s[0] + c, sh.word);
      if |s| > 1 {
        var a := Add(s[0], c, sh.word);
        var q := a / sh.radix;
        var l := Lost(s[1..], q, sh.radix, sh.word);
        CarriesFitExactly(s[1..], q, sh);
        SumIsZero((s[0] + c) / sh.word, sh.radix, l);
        assert Lost(s, c, sh.radix, sh.word) == (s[0] + c) / sh.word + MulNat(sh.radix, l);
      }
    }
  }

  lemma NoLoss(s: seq<nat>, sh: Shape)
    requires Known(sh) && |s| == sh.count
    ensures FirstPassFits(s, sh) <==> Loss(s, sh) == 0
  {
    ShapeFacts(sh);
    var n := |s| - 1;
    var t, x := s[n := s[n] % sh.top], s[n] / sh.top;
    var f0, f1 := t[0] + MulNat(x, sh.c0), t[1] + MulNat(x, sh.c1);
    WrapsOrNot(f0, sh.word);
    WrapsOrNot(f1, sh.word);
    SumIsZero(f0 / sh.word, sh.radix, f1 / sh.word);
    CarriesFitExactly(Folded(t, x, sh), 0, sh);
  }

  /** The loss is less than one p, so that it never goes unnoticed. */
  lemma LossIsSmall(s: seq<nat>, sh: Shape)
    requires Known(sh) && Element(s, sh)
    ensures 0 <= sh.word * Loss(s, sh) < P
  {
    ShapeFacts(sh);
    var n, b, w := |s| - 1, sh.radix, sh.word;
    var t, x := s[n := s[n] % sh.top], s[n] / sh.top;
    DivMod(s[n], sh.top);
    FoldedWords(t, x, sh);
    var f := Folded(t, x, sh);
    LostBound(f, 0, b, w);
    FoldLossBound(t, x, sh);
    LossArithmetic(sh, FoldLoss(t, x, sh), Lost(f, 0, b, w));
  }

  lemma FoldLossBound(t: seq<nat>, x: nat, sh: Shape)
    requires Known(sh) && Element(t, sh) && x <= sh.word / sh.top
    ensures FoldLoss(t, x, sh) <= 1 + sh.radix
  {
    if sh == TEN {
      OneWrap(t[0], MulNat(x, sh.c0), sh.word);
      OneWrap(t[1], MulNat(x, sh.c1), sh.word);
    } else {
      OneWrap(t[0], MulNat(x, sh.c0), sh.word);
      ModSmall(t[1], sh.word);
      assert MulNat(x, sh.c1) == 0;
    }
    MulMono(0, sh.radix, (t[1] + MulNat(x, sh.c1)) / sh.word, 1);
  }

  lemma LossArithmetic(sh: Shape, fl: nat, l: nat)
    requires Known(sh) && fl <= 1 + sh.radix && (sh.radix - 1) * l < Power(sh.radix, sh.count - 1)
    ensures 0 <= sh.word * (fl + l) < P
  {
    ShapeFacts(sh);
    var p := Power(sh.radix, sh.count - 1);
    assert p * sh.top == TWO256;
  }

  /** The largest magnitude that cannot wrap the first pass. */
  function SafeMagnitude(sh: Shape): nat {
    if sh.count == 10 then 31 else 2047
  }

  lemma MagnitudeWords(s: seq<nat>, sh: Shape, m: nat)
    requires Known(sh) && Magnitude(s, sh, m) && m <= SafeMagnitude(sh)
    ensures Element(s, sh)
  {
  }

  lemma SmallMultiples(s: seq<nat>, sh: Shape, m: nat)
    requires Known(sh) && Magnitude(s, sh, m) && m <= SafeMagnitude(sh)
    ensures forall i :: 0 <= i < |s| - 1 ==> s[i] <= 2 * SafeMagnitude(sh) * (sh.radix - 1)
    ensures s[|s| - 1] / sh.top <= 2 * SafeMagnitude(sh)
  {
    DivMod(s[|s| - 1], sh.top);
  }

  /** Up to magnitude 31 (ten limbs) or 2047 (five limbs) the first pass fits. */
  lemma MagnitudeFits(s: seq<nat>, sh: Shape, m: nat)
    requires Known(sh) && Magnitude(s, sh, m) && m <= SafeMagnitude(sh)
    ensures Element(s, sh) && FirstPassFits(s, sh)
  {
    ShapeFacts(sh);
    MagnitudeWords(s, sh, m);
    SmallMultiples(s, sh, m);
    var n := |s| - 1;
    var t, x := s[n := s[n] % sh.top], s[n] / sh.top;
    FoldedRoom(t, x, sh);
    NothingLost(Folded(t, x, sh), 0, sh.radix, sh.word);
    CarriesFitExactly(Folded(t, x, sh), 0, sh);
  }

  lemma FoldedRoom(t: seq<nat>, x: nat, sh: Shape)
    requires Known(sh) && |t| == sh.count && x <= 2 * SafeMagnitude(sh) && t[|t| - 1] < sh.top
    requires forall i :: 0 <= i < |t| - 1 ==> t[i] <= 2 * SafeMagnitude(sh) * (sh.radix - 1)
    ensures t[0] + MulNat(x, sh.c0) < sh.word && t[1] + MulNat(x, sh.c1) < sh.word
    ensures var f := Folded(t, x, sh);
            forall i :: 0 <= i < |f| ==> f[i] + sh.word / sh.radix < sh.word
  {
    ModSmall(t[0] + x * sh.c0, sh.word);
    ModSmall(t[1] + x * sh.c1, sh.word);
  }

  function Largest(sh: Shape, m: nat): (s: seq<nat>)
    requires sh.radix > 0 && sh.top > 0 && sh.count > 0
    ensures |s| == sh.count
  {
    var low: nat := MulNat(2 * m, sh.radix - 1);
    seq(sh.count - 1, _ => low) + [MulNat(2 * m, sh.top - 1)]
  }

  /** From the next magnitude on, which `secp256k1_fe_verify` still admits, it need not. */
  lemma MagnitudeTooLarge(sh: Shape)
    requires Known(sh)
    ensures var m := SafeMagnitude(sh) + 1;
            var s := Largest(sh, m);
            Magnitude(s, sh, m) && Element(s, sh) && !FirstPassFits(s, sh)
  {
    var n := sh.count - 1;
    var m := SafeMagnitude(sh) + 1;
    var s := Largest(sh, m);
    assert s[n] == 2 * m * (sh.top - 1);
    DivModUnique(s[n], sh.top, 2 * m - 1, sh.top - 2 * m);
  }

  // ---- the second pass ----

  /** Folds x back once more, carries, and drops what reaches bit 256. */
  function SecondPass(c: seq<nat>, x: nat, sh: Shape): (r: seq<nat>)
    requires sh.radix > 0 && sh.word > 0 && sh.top > 0 && |c| == sh.count >= 2
    ensures |r| == |c|
  {
    var f := Carried(Folded(c, x, sh), 0, sh.radix, sh.word);
    f[|c| - 1 := f[|c| - 1] % sh.top]
  }

  lemma SecondFold(c: seq<nat>, x: nat, sh: Shape)
    requires Known(sh) && NearlyReduced(c, sh) && x <= 1
    ensures Element(c, sh) && FoldLoss(c, x, sh) == 0
    ensures var f := Folded(c, x, sh);
            forall i :: 0 <= i < |f| ==> f[i] + sh.word / sh.radix < sh.word
  {
    ShapeFacts(sh);
    assert forall i :: 0 <= i < |c| - 1 ==> c[i] == c[..|c| - 1][i] < sh.radix;
    assert x * sh.c0 <= sh.c0 && x * sh.c1 <= sh.c1 by {
      MulMono(x, 1, sh.c0, sh.c0);
      MulMono(x, 1, sh.c1, sh.c1);
    }
    ModSmall(c[0] + x * sh.c0, sh.word);
    ModSmall(c[1] + x * sh.c1, sh.word);
  }

  lemma SecondValue(c: seq<nat>, x: nat, sh: Shape)
    requires Known(sh) && NearlyReduced(c, sh) && x <= 1
    ensures var f := Carried(Folded(c, x, sh), 0, sh.radix, sh.word);
            && Element(f, sh) && Below(f[..|f| - 1], sh.radix)
            && Value(f, sh.radix) == Value(c, sh.radix) + x * FOLD
  {
    ShapeFacts(sh);
    SecondFold(c, x, sh);
    FoldedValue(c, x, sh);
    var g := Folded(c, x, sh);
    NothingLost(g, 0, sh.radix, sh.word);
    CarriedValue(g, 0, sh.radix, sh.word);
    forall i | 0 <= i < |g| 
      ensures var t := Carried(g, 0, sh.radix, sh.word)[i]; t < sh.word && (i < |g| - 1 ==> t < sh.radix)
    {
      CarriedLimbs(g, 0, sh.radix, sh.word, i);
    }
  }

  /** The top limb says on which side of 2^256 a value below 2^257 lies. */
  lemma TopBitOfValue(f: seq<nat>, sh: Shape)
    requires Known(sh) && Element(f, sh) && Below(f[..|f| - 1], sh.radix) && Value(f, sh.radix) < 2 * TWO256
    ensures f[|f| - 1] / sh.top == if Value(f, sh.radix) >= TWO256 then 1 else 0
  {
    ShapeFacts(sh);
    var n := |f| - 1;
    TwiceTop(Power(sh.radix, n), sh.top);
    if f[n] >= 2 * sh.top {
      TopLimb(f, sh.radix, 2 * sh.top);
    } else if f[n] >= sh.top {
      TopLimb(f, sh.radix, sh.top);
      OneOrNone(f[n], sh.top);
    } else {
      AllOnes(f, sh.radix, sh.top);
      OneOrNone(f[n], sh.top);
    }
  }

  function Bit(b: bool): nat {
    if b then 1 else 0
  }

  lemma SubtractOnce(v: int, x: int)
    requires 0 <= x <= 1 && 0 <= v < 2 * P && (v >= P <==> x == 1)
    ensures 0 <= v - x * P < P && 0 <= v + x * FOLD < 2 * TWO256
    ensures v + x * FOLD - x * TWO256 == v - x * P
    ensures v + x * FOLD >= TWO256 <==> x == 1
  {
  }

  lemma SecondPassValue(c: seq<nat>, x: nat, sh: Shape)
    requires Known(sh) && NearlyReduced(c, sh)
    requires x <= 1 && Value(c, sh.radix) < 2 * P && (Value(c, sh.radix) >= P <==> x == 1)
    ensures Value(SecondPass(c, x, sh), sh.radix) == Value(c, sh.radix) - x * P
    ensures Carried(Folded(c, x, sh), 0, sh.radix, sh.word)[|c| - 1] / sh.top == x
  {
    ShapeFacts(sh);
    SecondValue(c, x, sh);
    MaskedValue(Carried(Folded(c, x, sh), 0, sh.radix, sh.word), Value(c, sh.radix), x, sh);
  }

  lemma MaskedValue(f: seq<nat>, v: int, x: nat, sh: Shape)
    requires Known(sh) && Element(f, sh) && Below(f[..|f| - 1], sh.radix)
    requires x <= 1 && 0 <= v < 2 * P && (v >= P <==> x == 1) && Value(f, sh.radix) == v + x * FOLD
    ensures var n := |f| - 1;
            Value(f[n := f[n] % sh.top], sh.radix) == v - x * P && f[n] / sh.top == x
  {
    SubtractOnce(v, x);
    TopBitOfValue(f, sh);
    MaskTop(f, sh);
  }

  lemma SecondPassLimbs(c: seq<nat>, x: nat, sh: Shape)
    requires Known(sh) && NearlyReduced(c, sh) && x <= 1
    ensures var r := SecondPass(c, x, sh);
            Below(r[..|r| - 1], sh.radix) && r[|r| - 1] < sh.top
  {
    ShapeFacts(sh);
    SecondValue(c, x, sh);
    var f := Carried(Folded(c, x, sh), 0, sh.radix, sh.word);
    DivMod(f[|c| - 1], sh.top);
    assert SecondPass(c, x, sh)[..|c| - 1] == f[..|c| - 1];
  }

  /** The second pass subtracts p where the test asked for it, and leaves the
      unique reduced form; bit 256 of the sum is the tested condition itself. */
  lemma SecondPassNormalizes(c: seq<nat>, sh: Shape)
    requires Known(sh) && NearlyReduced(c, sh)
    ensures var x := Bit(NeedsReduction(c, sh));
            && Normalized(SecondPass(c, x, sh), sh)
            && Value(SecondPass(c, x, sh), sh.radix) == Value(c, sh.radix) - x * P
            && Carried(Folded(c, x, sh), 0, sh.radix, sh.word)[|c| - 1] / sh.top == x
  {
    var x := Bit(NeedsReduction(c, sh));
    AtLeastP(c, sh);
    SubtractOnce(Value(c, sh.radix), x);
    SecondPassValue(c, x, sh);
    SecondPassLimbs(c, x, sh);
  }

  // ---- the whole of normalization ----

  /** Both passes. */
  function Reduced(s: seq<nat>, sh: Shape): (r: seq<nat>)
    requires sh.radix > 0 && sh.word > 0 && sh.top > 0 && |s| == sh.count >= 2
  {
    var c := FirstPass(s, sh);
    SecondPass(c, Bit(NeedsReduction(c, sh)), sh)
  }

  lemma Residue(v: int, x: int, wl: int, y: int, r: int)
    requires r == v - x * P - wl - y * P && 0 <= r < P
    ensures r == (v - wl) % P
  {
    assert v - wl == (x + y) * P + r;
    DivModUnique(v - wl, P, x + y, r);
  }

  lemma SameResidue(v: int, wl: int)
    requires 0 <= wl < P
    ensures (v - wl) % P == v % P <==> wl == 0
  {
    DivModP(v);
    DivModP(v - wl);
    if (v - wl) % P == v % P {
      SameRemainder(v, v - wl, v / P, (v - wl) / P, v % P);
    }
  }

  lemma DivModP(v: int)
    ensures v == (v / P) * P + v % P
  {
  }

  lemma SameRemainder(v: int, u: int, p: int, q: int, r: int)
    requires v == p * P + r && u == q * P + r && 0 <= v - u < P
    ensures u == v
  {
    assert v - u == (p - q) * P;
    MulAway(p - q, P);
  }

  /** Normalization yields the reduced form of the value less what the first pass
      lost: the residue itself exactly when the first pass fits. */
  lemma NormalForm(s: seq<nat>, sh: Shape)
    requires Known(sh) && Element(s, sh)
    ensures Normalized(Reduced(s, sh), sh)
    ensures Value(Reduced(s, sh), sh.radix) == (Value(s, sh.radix) - sh.word * Loss(s, sh)) % P
    ensures Value(Reduced(s, sh), sh.radix) == Value(s, sh.radix) % P <==> FirstPassFits(s, sh)
  {
    ShapeFacts(sh);
    var c := FirstPass(s, sh);
    FirstPassValue(s, sh);
    FirstPassLimbs(s, sh);
    SecondPassNormalizes(c, sh);
    Residue(Value(s, sh.radix), s[|s| - 1] / sh.top, sh.word * Loss(s, sh), Bit(NeedsReduction(c, sh)),
            Value(Reduced(s, sh), sh.radix));
    LossIsSmall(s, sh);
    SameResidue(Value(s, sh.radix), sh.word * Loss(s, sh));
    NoLoss(s, sh);
    SumIsZero(0, sh.word, Loss(s, sh));
  }

  /** Up to the safe magnitude, normalization yields the residue. */
  lemma SafelyNormalized(s: seq<nat>, sh: Shape, m: nat)
    requires Known(sh) && Magnitude(s, sh, m) && m <= SafeMagnitude(sh)
    ensures Normalized(Reduced(s, sh), sh)
    ensures Value(Reduced(s, sh), sh.radix) == Value(s, sh.radix) % P
  {
    MagnitudeFits(s, sh, m);
    NormalForm(s, sh);
  }

  lemma {:induction false} LimbsUnique(s: seq<nat>, t: seq<nat>, b: nat)
    requires |s| == |t| > 0 && b > 0 && Below(s[..|s| - 1], b) && Below(t[..|t| - 1], b)
    requires Value(s, b) == Value(t, b)
    ensures s == t
    decreases |s|
  {
    if |s| == 1 {
      assert s[1..] == [] && t[1..] == [];
    } else {
      assert s[..|s| - 1][0] == s[0] && t[..|t| - 1][0] == t[0];
      Swap(b, Value(s[1..], b));
      Swap(b, Value(t[1..], b));
      DivModUnique(Value(s, b), b, Value(s[1..], b), s[0]);
      DivModUnique(Value(t, b), b, Value(t[1..], b), t[0]);
      assert s[1..][..|s| - 2] == s[..|s| - 1][1..] && t[1..][..|t| - 2] == t[..|t| - 1][1..];
      LimbsUnique(s[1..], t[1..], b);
      assert s == [s[0]] + s[1..] && t == [t[0]] + t[1..];
    }
  }

  lemma Swap(x: int, y: int)
    ensures x * y == y * x
  {
  }

  /** A residue has only one normalized representation. */
  lemma NormalizedUnique(s: seq<nat>, t: seq<nat>, sh: Shape)
    requires Known(sh) && Normalized(s, sh) && Normalized(t, sh)
    ensures s == t <==> Value(s, sh.radix) % P == Value(t, sh.radix) % P
  {
    ModSmall(Value(s, sh.radix), P);
    ModSmall(Value(t, sh.radix), P);
    if Value(s, sh.radix) == Value(t, sh.radix) {
      LimbsUnique(s, t, sh.radix);
    }
  }
}
