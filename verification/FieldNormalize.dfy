/**
 `secp256k1_fe_normalize` and its relatives, in place on the limbs, for both
 layouts. The ten or five carry lines of the source are a loop over the limbs.
 */
module FieldNormalize {
  import opened Arith
  import opened Bits
  import opened Limbs
  import opened FieldReduce
  import opened FieldCanonical

  function LimbBits(sh: Shape): nat {
    if sh.count == 10 then 26 else 52
  }

  lemma RadixBits(sh: Shape)
    requires Known(sh)
    ensures Pow2(LimbBits(sh)) == sh.radix
  {
    Pow2Square(13, 0x2000, 26, 0x400_0000);
    Pow2Square(26, 0x400_0000, 52, 0x10_0000_0000_0000);
  }

  lemma CarryOnce(u: seq<nat>, b: nat, w: nat)
    requires b > 0 && |u| >= 2 && u[0] < w
    ensures Carried(u, 0, b, w) == [u[0] % b] + Carried(u[1..][0 := Add(u[1], u[0] / b, w)], 0, b, w)
  {
    ModSmall(u[0], w);
    var v := u[1..];
    var a := Add(v[0], u[0] / b, w);
    DivMod(v[0] + u[0] / b, w);
    ModSmall(a, w);
    assert v[0 := a][1..] == v[1..];
  }

  /** One line of the carry pass, with what is behind it already final. */
  lemma CarryLine(s: seq<nat>, i: nat, t: seq<nat>, b: nat, w: nat)
    requires b > 0 && i + 1 < |s| && s[i] < w
    requires t == s[i + 1 := Add(s[i + 1], s[i] / b, w)][i := s[i] % b]
    ensures t[..i + 1] + Carried(t[i + 1..], 0, b, w) == s[..i] + Carried(s[i..], 0, b, w)
  {
    CarryOnce(s[i..], b, w);
    assert t[i + 1..] == s[i..][1..][0 := Add(s[i + 1], s[i] / b, w)];
    assert t[..i + 1] == s[..i] + [s[i] % b];
  }

  lemma CarryEnd(s: seq<nat>, b: nat, w: nat)
    requires b > 0 && s != [] && s[|s| - 1] < w
    ensures s[..|s| - 1] + Carried(s[|s| - 1..], 0, b, w) == s
  {
    ModSmall(s[|s| - 1], w);
  }

  /** The running conjunction of limbs k..i is all ones when every limb is. */
  ghost predicate OnesSoFar(s: seq<nat>, k: nat, i: nat, m: nat, b: nat)
    requires i <= |s|
  {
    k < i ==> m < b && (m == b - 1 <==> forall j :: k <= j < i ==> s[j] == b - 1)
  }

  lemma OnesNext(s: seq<nat>, t: seq<nat>, k: nat, i: nat, m: nat, sh: Shape)
    requires Known(sh) && i < |s| == |t| && s[..i] == t[..i] && t[i] < sh.radix
    requires OnesSoFar(s, k, i, m, sh.radix) && k <= i
    ensures OnesSoFar(t, k, i + 1, if i == k then t[i] else And(m, t[i]), sh.radix)
  {
    var b := sh.radix;
    assert forall j :: k <= j < i ==> t[j] == t[..i][j] == s[j];
    if k < i {
      RadixBits(sh);
      AndIsOnes(m, t[i], LimbBits(sh));
    }
  }

  /** The pass has reached limb i and is on the way to `target`. */
  ghost predicate Passing(target: seq<nat>, s: seq<nat>, i: nat, m: nat, sh: Shape)
    requires Known(sh)
  {
    && i < |s| && Element(s, sh) && OnesSoFar(s, FirstOnes(sh), i, m, sh.radix)
    && s[..i] + Carried(s[i..], 0, sh.radix, sh.word) == target
  }

  /** The limbs and the conjunction after one line. */
  function AfterLine(s: seq<nat>, i: nat, sh: Shape): seq<nat>
    requires i + 1 < |s| && sh.radix > 0 && sh.word > 0
  {
    s[i + 1 := Add(s[i + 1], s[i] / sh.radix, sh.word)][i := s[i] % sh.radix]
  }

  lemma PassStep(target: seq<nat>, s: seq<nat>, i: nat, m: nat, sh: Shape)
    requires Known(sh) && Passing(target, s, i, m, sh) && i + 1 < |s|
    ensures var t := AfterLine(s, i, sh);
            Passing(target, t, i + 1,
                    if i < FirstOnes(sh) then m else if i == FirstOnes(sh) then t[i] else And(m, t[i]), sh)
  {
    var t := AfterLine(s, i, sh);
    DivMod(s[i], sh.radix);
    DivMod(s[i + 1] + s[i] / sh.radix, sh.word);
    assert s[..i] == t[..i];
    CarryLine(s, i, t, sh.radix, sh.word);
    if FirstOnes(sh) <= i {
      OnesNext(s, t, FirstOnes(sh), i, m, sh);
    }
  }

  lemma PassEnd(target: seq<nat>, s: seq<nat>, m: nat, sh: Shape)
    requires Known(sh) && Passing(target, s, sh.count - 1, m, sh)
    ensures s == target && (m == sh.radix - 1 <==> MiddleOnes(s, sh))
  {
    CarryEnd(s, sh.radix, sh.word);
  }

  /** `t1 += t0 >> 26; t0 &= 0x3FFFFFF; ...`, with m gathering the limbs that p
      has all ones in. */
  method CarryPass(r: array<nat>, sh: Shape) returns (m: nat)
    requires Known(sh) && r.Length == sh.count && Element(r[..], sh)
    modifies r
    ensures r[..] == Carried(old(r[..]), 0, sh.radix, sh.word)
    ensures m == sh.radix - 1 <==> MiddleOnes(r[..], sh)
  {
    ghost var target := Carried(r[..], 0, sh.radix, sh.word);
    assert r[..][0..] == r[..];
    m := 0;
    var i, k := 0, FirstOnes(sh);
    while i + 1 < r.Length
      invariant Passing(target, r[..], i, m, sh)
    {
      ghost var s := r[..];
      PassStep(target, s, i, m, sh);
      r[i + 1] := Add(r[i + 1], r[i] / sh.radix, sh.word);
      r[i] := r[i] % sh.radix;
      assert r[..] == AfterLine(s, i, sh);
      if i == k {
        m := r[i];
      } else if i > k {
        m := And(m, r[i]);
      }
      i := i + 1;
    }
    PassEnd(target, r[..], m, sh);
  }

  /** `x = t9 >> 22; t9 &= 0x3FFFFF; t0 += x * 0x3D1; t1 += x << 6`. */
  method FoldTop(r: array<nat>, sh: Shape)
    requires Known(sh) && r.Length == sh.count && Element(r[..], sh)
    modifies r
    ensures var s := old(r[..]);
            var n := |s| - 1;
            r[..] == Folded(s[n := s[n] % sh.top], s[n] / sh.top, sh)
    ensures Element(r[..], sh)
  {
    var n := sh.count - 1;
    var x := r[n] / sh.top;
    DivMod(r[n], sh.top);
    r[n] := r[n] % sh.top;
    Fold(r, x, sh);
  }

  method Fold(r: array<nat>, x: nat, sh: Shape)
    requires Known(sh) && r.Length == sh.count && Element(r[..], sh)
    modifies r
    ensures r[..] == Folded(old(r[..]), x, sh)
    ensures Element(r[..], sh)
  {
    FoldedWords(r[..], x, sh);
    r[0] := Add(r[0], MulNat(x, sh.c0), sh.word);
    r[1] := Add(r[1], MulNat(x, sh.c1), sh.word);
  }

  /** What both forms of full normalization leave in r. */
  twostate predicate Renormalized(r: array<nat>, sh: Shape)
    requires Known(sh) && r.Length == sh.count && old(Element(r[..], sh))
    reads r
  {
    && Normalized(r[..], sh)
    && Value(r[..], sh.radix) == (Value(old(r[..]), sh.radix) - sh.word * Loss(old(r[..]), sh)) % P
    && (Value(r[..], sh.radix) == Value(old(r[..]), sh.radix) % P <==> FirstPassFits(old(r[..]), sh))
  }

  /** `secp256k1_fe_normalize`, constant time: the second fold is always done. */
  method Normalize(r: array<nat>, sh: Shape)
    requires Known(sh) && r.Length == sh.count && Element(r[..], sh)
    modifies r
    ensures Renormalized(r, sh) && r[..] == Reduced(old(r[..]), sh)
  {
    ghost var s := r[..];
    FirstPassLimbs(s, sh);
    NormalForm(s, sh);
    FoldTop(r, sh);
    var m := CarryPass(r, sh);
    assert r[..] == FirstPass(s, sh);
    SecondFold(r[..], 0, sh);
    var x := Test(r, m, sh);
    Fold(r, x, sh);
    var _ := CarryPass(r, sh);
    r[sh.count - 1] := r[sh.count - 1] % sh.top;
  }

  /** `(t9 >> 22) | ((t9 == ones) & (m == ones) & (low limbs))`. */
  method Test(r: array<nat>, m: nat, sh: Shape) returns (x: nat)
    requires Known(sh) && r.Length == sh.count && NearlyReduced(r[..], sh)
    requires m == sh.radix - 1 <==> MiddleOnes(r[..], sh)
    ensures x == Bit(NeedsReduction(r[..], sh))
  {
    var n := sh.count - 1;
    OneOrNone(r[n], sh.top);
    x := Or(r[n] / sh.top, Bit(r[n] == sh.top - 1 && m == sh.radix - 1 && LowPartAtLeast(r[..], sh)));
  }

  /** `secp256k1_fe_normalize_var`: folds and carries again only when needed. */
  method NormalizeVar(r: array<nat>, sh: Shape)
    requires Known(sh) && r.Length == sh.count && Element(r[..], sh)
    modifies r
    ensures Renormalized(r, sh) && r[..] == Reduced(old(r[..]), sh)
  {
    ghost var s := r[..];
    FirstPassLimbs(s, sh);
    NormalForm(s, sh);
    FoldTop(r, sh);
    var m := CarryPass(r, sh);
    assert r[..] == FirstPass(s, sh);
    SecondFold(r[..], 0, sh);
    var x := Test(r, m, sh);
    if x != 0 {
      Fold(r, 1, sh);
      var _ := CarryPass(r, sh);
      r[sh.count - 1] := r[sh.count - 1] % sh.top;
    } else {
      SecondPassIdle(r[..], sh);
    }
  }

  /** Without a reduction the second pass changes nothing. */
  lemma SecondPassIdle(c: seq<nat>, sh: Shape)
    requires Known(sh) && NearlyReduced(c, sh) && !NeedsReduction(c, sh)
    ensures SecondPass(c, 0, sh) == c
  {
    ShapeFacts(sh);
    AtLeastP(c, sh);
    SecondPassNormalizes(c, sh);
    LimbsUnique(SecondPass(c, 0, sh), c, sh.radix);
  }

  /** `secp256k1_fe_normalize_weak`: the first pass alone. */
  method NormalizeWeak(r: array<nat>, sh: Shape)
    requires Known(sh) && r.Length == sh.count && Element(r[..], sh)
    modifies r
    ensures Magnitude(r[..], sh, 1) && NearlyReduced(r[..], sh)
    ensures Value(r[..], sh.radix) < 2 * P
    ensures (Value(r[..], sh.radix) - Value(old(r[..]), sh.radix)) % P == 0 <==> FirstPassFits(old(r[..]), sh)
  {
    ghost var s := r[..];
    FirstPassLimbs(s, sh);
    FoldTop(r, sh);
    var _ := CarryPass(r, sh);
    assert r[..] == FirstPass(s, sh);
    AtLeastP(r[..], sh);
    WeakResidue(s, sh);
    WeakMagnitude(r[..], sh);
  }

  lemma WeakMagnitude(c: seq<nat>, sh: Shape)
    requires Known(sh) && NearlyReduced(c, sh)
    ensures Magnitude(c, sh, 1)
  {
    assert forall i :: 0 <= i < |c| - 1 ==> c[i] == c[..|c| - 1][i];
  }

  lemma WeakResidue(s: seq<nat>, sh: Shape)
    requires Known(sh) && Element(s, sh)
    ensures (Value(FirstPass(s, sh), sh.radix) - Value(s, sh.radix)) % P == 0 <==> FirstPassFits(s, sh)
  {
    FirstPassValue(s, sh);
    LossIsSmall(s, sh);
    NoLoss(s, sh);
    SumIsZero(0, sh.word, Loss(s, sh));
    WeakArithmetic(s[|s| - 1] / sh.top, sh.word * Loss(s, sh));
  }

  lemma WeakArithmetic(x: int, wl: int)
    requires 0 <= wl < P
    ensures (-(x * P) - wl) % P == 0 <==> wl == 0
  {
    if wl == 0 {
      DivModUnique(-(x * P) - wl, P, -x, 0);
    } else {
      DivModUnique(-(x * P) - wl, P, -x - 1, P - wl);
    }
  }
}
