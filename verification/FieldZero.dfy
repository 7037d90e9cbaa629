/**
 `secp256k1_fe_normalizes_to_zero` and its variable-time form: whether an element
 is zero modulo p, found from two running combinations of the limbs.
 */
module FieldZero {
  import opened Arith
  import opened Bits
  import opened Limbs
  import opened FieldReduce
  import opened FieldCanonical
  import opened FieldNormalize

  /** The constant that turns limb i of p into all ones. */
  function Delta(sh: Shape, i: nat): nat
    requires sh.c0 > 0 && sh.radix >= sh.top
  {
    if i == 0 then sh.c0 - 1
    else if i == 1 then sh.c1
    else if i + 1 == sh.count then sh.radix - sh.top
    else 0
  }

  /** Limb i of p. */
  function PrimeLimb(sh: Shape, i: nat): nat
    requires 0 < sh.c0 <= sh.radix && sh.radix >= sh.top && sh.c1 < sh.radix && sh.top > 0
  {
    sh.radix - 1 - Delta(sh, i)
  }

  lemma OnesHalved(q: nat, d: nat)
    requires q > 0 && d < 2 * q
    ensures (2 * q - 1) / 2 == q - 1 && (2 * q - 1) % 2 == 1 && d / 2 < q
  {
  }

  lemma {:induction false} XorOnes(d: nat, k: nat)
    requires d < Pow2(k)
    ensures Xor(Pow2(k) - 1, d) == Pow2(k) - 1 - d
    decreases k
  {
    if k > 0 {
      var q := Pow2(k - 1);
      assert Pow2(k) == 2 * q;
      XorOnes(d / 2, k - 1);
      OnesHalved(q, d);
      XorHalves(2 * q - 1, d);
    }
  }

  lemma XorDetects(t: nat, d: nat, k: nat)
    requires t < Pow2(k) && d < Pow2(k)
    ensures Xor(t, d) < Pow2(k)
    ensures Xor(t, d) == Pow2(k) - 1 <==> t == Pow2(k) - 1 - d
  {
    XorBelow(t, d, k);
    XorOnes(d, k);
    XorCancels(t, d);
    XorCancels(Pow2(k) - 1, d);
  }

  /** z0 and z1 after the first i limbs. */
  ghost predicate ZeroSoFar(s: seq<nat>, i: nat, z0: nat, z1: nat, sh: Shape)
    requires Known(sh) && i <= |s|
  {
    && (z0 == 0 <==> forall j :: 0 <= j < i ==> s[j] == 0)
    && z1 < sh.radix
    && (z1 == sh.radix - 1 <==> forall j :: 0 <= j < i ==> s[j] == PrimeLimb(sh, j))
  }

  lemma FirstZero(s: seq<nat>, sh: Shape)
    requires Known(sh) && |s| == sh.count && s[0] < sh.radix
    ensures ZeroSoFar(s, 1, s[0], Xor(s[0], Delta(sh, 0)), sh)
  {
    RadixBits(sh);
    XorDetects(s[0], Delta(sh, 0), LimbBits(sh));
  }

  lemma NextZero(s: seq<nat>, t: seq<nat>, i: nat, z0: nat, z1: nat, sh: Shape)
    requires Known(sh) && 0 < i < |s| == |t| == sh.count && s[..i] == t[..i] && t[i] < sh.radix
    requires ZeroSoFar(s, i, z0, z1, sh)
    ensures ZeroSoFar(t, i + 1, Or(z0, t[i]), And(z1, Xor(t[i], Delta(sh, i))), sh)
  {
    assert forall j :: 0 <= j < i ==> t[j] == t[..i][j] == s[j];
    OrIsZero(z0, t[i]);
    RadixBits(sh);
    XorDetects(t[i], Delta(sh, i), LimbBits(sh));
    AndIsOnes(z1, Xor(t[i], Delta(sh, i)), LimbBits(sh));
  }

  ghost predicate ZeroPassing(target: seq<nat>, s: seq<nat>, i: nat, z0: nat, z1: nat, sh: Shape)
    requires Known(sh)
  {
    && 0 < i < |s| && Element(s, sh) && ZeroSoFar(s, i, z0, z1, sh)
    && s[..i] + Carried(s[i..], 0, sh.radix, sh.word) == target
  }

  lemma LineWords(s: seq<nat>, i: nat, sh: Shape)
    requires Known(sh) && Element(s, sh) && i + 1 < |s|
    ensures Element(AfterLine(s, i, sh), sh) && AfterLine(s, i, sh)[i] < sh.radix
    ensures AfterLine(s, i, sh)[..i] == s[..i]
  {
    DivMod(s[i], sh.radix);
    DivMod(s[i + 1] + s[i] / sh.radix, sh.word);
  }

  lemma ZeroStart(s: seq<nat>, sh: Shape)
    requires Known(sh) && Element(s, sh)
    ensures var t := AfterLine(s, 0, sh);
            ZeroPassing(Carried(s, 0, sh.radix, sh.word), t, 1, t[0], Xor(t[0], Delta(sh, 0)), sh)
  {
    var t := AfterLine(s, 0, sh);
    LineWords(s, 0, sh);
    CarryLine(s, 0, t, sh.radix, sh.word);
    assert s[0..] == s && s[..0] == [];
    FirstZero(t, sh);
  }

  lemma ZeroStep(target: seq<nat>, s: seq<nat>, i: nat, z0: nat, z1: nat, sh: Shape)
    requires Known(sh) && ZeroPassing(target, s, i, z0, z1, sh) && i + 1 < |s|
    ensures var t := AfterLine(s, i, sh);
            ZeroPassing(target, t, i + 1, Or(z0, t[i]), And(z1, Xor(t[i], Delta(sh, i))), sh)
  {
    var t := AfterLine(s, i, sh);
    LineWords(s, i, sh);
    CarryLine(s, i, t, sh.radix, sh.word);
    NextZero(s, t, i, z0, z1, sh);
  }

  // ---- the two multiples of p that the first pass can leave ----

  ghost function PrimeLimbs(sh: Shape): (s: seq<nat>)
    requires Known(sh)
    ensures |s| == sh.count && forall i :: 0 <= i < |s| ==> s[i] == PrimeLimb(sh, i)
  {
    seq(sh.count, i requires 0 <= i < sh.count => PrimeLimb(sh, i))
  }

  lemma PrimeValue(sh: Shape)
    requires Known(sh)
    ensures Value(PrimeLimbs(sh), sh.radix) == P
  {
    ShapeFacts(sh);
    var b, p, n := sh.radix, PrimeLimbs(sh), sh.count - 1;
    var ones := p[0 := b - 1][1 := b - 1];
    AllOnes(ones, b, sh.top);
    ValueUpdate(ones, 0, p[0], b);
    ValueUpdate(ones[0 := p[0]], 1, p[1], b);
    assert ones[0 := p[0]][1 := p[1]] == p;
    assert Power(b, 0) == 1 && Power(b, 1) == b;
  }

  lemma {:induction false} ZeroValue(s: seq<nat>, b: nat)
    requires forall i :: 0 <= i < |s| ==> s[i] == 0
    ensures Value(s, b) == 0
    decreases |s|
  {
    if s != [] {
      ZeroValue(s[1..], b);
    }
  }

  ghost predicate AllZero(c: seq<nat>) {
    forall i :: 0 <= i < |c| ==> c[i] == 0
  }

  ghost predicate AllPrime(c: seq<nat>, sh: Shape)
    requires Known(sh)
  {
    forall i :: 0 <= i < |c| ==> c[i] == PrimeLimb(sh, i)
  }

  lemma WhichMultiple(c: seq<nat>, sh: Shape)
    requires Known(sh) && NearlyReduced(c, sh)
    ensures AllZero(c) <==> Value(c, sh.radix) == 0
    ensures AllPrime(c, sh) <==> Value(c, sh.radix) == P
  {
    var zero := seq(|c|, _ => 0);
    ZeroValue(zero, sh.radix);
    PrimeValue(sh);
    if Value(c, sh.radix) == 0 {
      LimbsUnique(c, zero, sh.radix);
    } else if Value(c, sh.radix) == P {
      LimbsUnique(c, PrimeLimbs(sh), sh.radix);
    }
    if AllZero(c) {
      assert c == zero;
    } else if AllPrime(c, sh) {
      assert c == PrimeLimbs(sh);
    }
  }

  lemma MultipleBelowTwoP(v: int, x: int, wl: int, r: int)
    requires r == v - x * P - wl && 0 <= r < 2 * P
    ensures (v - wl) % P == 0 <==> r == 0 || r == P
  {
    if r < P {
      Residue(v, x, wl, 0, r);
    } else {
      Residue(v, x, wl, 1, r - P);
    }
  }

  /** The element is a multiple of p, less what the first pass loses. */
  ghost predicate IsZero(s: seq<nat>, sh: Shape)
    requires Known(sh) && Element(s, sh)
  {
    (Value(s, sh.radix) - sh.word * Loss(s, sh)) % P == 0
  }

  /** Where the first pass fits that is being zero modulo p. */
  lemma IsZeroMeans(s: seq<nat>, sh: Shape)
    requires Known(sh) && Element(s, sh) && FirstPassFits(s, sh)
    ensures IsZero(s, sh) <==> Value(s, sh.radix) % P == 0
  {
    NoLoss(s, sh);
  }

  lemma ShiftedZero(v: int, wl: int)
    requires 0 <= wl < P
    ensures (v - wl) % P == 0 <==> v % P == wl
  {
    DivModP(v);
    DivModP(v - wl);
    if (v - wl) % P == 0 {
      DivModUnique(v, P, (v - wl) / P, wl);
    } else if v % P == wl {
      DivModUnique(v - wl, P, v / P, 0);
    }
  }

  /** Exactly when IsZero tells whether the element is zero modulo p: where the first
      pass does not fit, it is wrong for zero and for the residue that is lost. */
  lemma VerdictIsRight(s: seq<nat>, sh: Shape)
    requires Known(sh) && Element(s, sh)
    ensures var v := Value(s, sh.radix) % P;
            (IsZero(s, sh) <==> v == 0)
            <==> FirstPassFits(s, sh) || (v != 0 && v != sh.word * Loss(s, sh))
  {
    NoLoss(s, sh);
    LossIsSmall(s, sh);
    ShapeFacts(sh);
    SumIsZero(0, sh.word, Loss(s, sh));
    ShiftedZero(Value(s, sh.radix), sh.word * Loss(s, sh));
  }

  lemma ZeroVerdict(s: seq<nat>, sh: Shape)
    requires Known(sh) && Element(s, sh)
    ensures var c := FirstPass(s, sh);
            && NearlyReduced(c, sh)
            && (IsZero(s, sh) <==> AllZero(c) || AllPrime(c, sh))
  {
    FirstPassValue(s, sh);
    FirstPassLimbs(s, sh);
    var c := FirstPass(s, sh);
    AtLeastP(c, sh);
    MultipleBelowTwoP(Value(s, sh.radix), s[|s| - 1] / sh.top, sh.word * Loss(s, sh), Value(c, sh.radix));
    WhichMultiple(c, sh);
  }

  /** The verdict after the last limb. */
  lemma ZeroEnd(s: seq<nat>, t: seq<nat>, z0: nat, z1: nat, sh: Shape)
    requires Known(sh) && Element(s, sh) && ZeroPassing(FirstPass(s, sh), t, sh.count - 1, z0, z1, sh)
    ensures var n := sh.count - 1;
            Or(z0, t[n]) == 0 || And(z1, Xor(t[n], Delta(sh, n))) == sh.radix - 1 <==> IsZero(s, sh)
  {
    ZeroVerdict(s, sh);
    CarryEnd(t, sh.radix, sh.word);
    NextZero(t, t, sh.count - 1, z0, z1, sh);
  }

  // ---- the methods ----

  /** The carry lines from limb 1 on, and the verdict. */
  method ZeroTail(t: array<nat>, y0: nat, y1: nat, sh: Shape, ghost s: seq<nat>) returns (zero: bool)
    requires Known(sh) && t.Length == sh.count && Element(s, sh)
    requires ZeroPassing(FirstPass(s, sh), t[..], 1, y0, y1, sh)
    modifies t
    ensures zero <==> IsZero(s, sh)
  {
    var i, z0, z1 := 1, y0, y1;
    ghost var c := FirstPass(s, sh);
    while i + 1 < t.Length
      invariant ZeroPassing(c, t[..], i, z0, z1, sh)
    {
      ghost var u := t[..];
      ZeroStep(c, u, i, z0, z1, sh);
      t[i + 1] := Add(t[i + 1], t[i] / sh.radix, sh.word);
      t[i] := t[i] % sh.radix;
      assert t[..] == AfterLine(u, i, sh);
      z0 := Or(z0, t[i]);
      z1 := And(z1, Xor(t[i], Delta(sh, i)));
      i := i + 1;
    }
    ZeroEnd(s, t[..], z0, z1, sh);
    z0 := Or(z0, t[i]);
    z1 := And(z1, Xor(t[i], Delta(sh, i)));
    zero := z0 == 0 || z1 == sh.radix - 1;
  }

  method Copy(r: array<nat>) returns (t: array<nat>)
    ensures fresh(t) && t[..] == r[..]
  {
    t := new nat[r.Length];
    var i := 0;
    while i < r.Length
      invariant i <= r.Length && t[..i] == r[..i]
    {
      t[i] := r[i];
      i := i + 1;
    }
  }

  /** The first carry line, with z0 and z1 at their first values, and the rest. */
  method ZeroFrom(t: array<nat>, z0: nat, z1: nat, sh: Shape, ghost s: seq<nat>) returns (zero: bool)
    requires Known(sh) && t.Length == sh.count && Element(s, sh) && Element(t[..], sh)
    requires FirstPass(s, sh) == Carried(t[..], 0, sh.radix, sh.word)
    requires z0 == t[0] % sh.radix && z1 == Xor(z0, Delta(sh, 0))
    modifies t
    ensures zero <==> IsZero(s, sh)
  {
    ghost var u := t[..];
    ZeroStart(u, sh);
    t[1] := Add(t[1], t[0] / sh.radix, sh.word);
    t[0] := z0;
    assert t[..] == AfterLine(u, 0, sh);
    zero := ZeroTail(t, z0, z1, sh, s);
  }

  /** `secp256k1_fe_normalizes_to_zero`; r is left as it is. */
  method NormalizesToZero(r: array<nat>, sh: Shape) returns (zero: bool)
    requires Known(sh) && r.Length == sh.count && Element(r[..], sh)
    ensures zero <==> IsZero(r[..], sh)
    ensures FirstPassFits(r[..], sh) ==> (zero <==> Value(r[..], sh.radix) % P == 0)
  {
    ghost var s := r[..];
    if FirstPassFits(s, sh) {
      IsZeroMeans(s, sh);
    }
    var t := Copy(r);
    FoldTop(t, sh);
    var z0 := t[0] % sh.radix;
    zero := ZeroFrom(t, z0, Xor(z0, Delta(sh, 0)), sh, s);
  }

  /** `secp256k1_fe_normalizes_to_zero_var`: limb 0 alone usually decides. */
  method NormalizesToZeroVar(r: array<nat>, sh: Shape) returns (zero: bool)
    requires Known(sh) && r.Length == sh.count && Element(r[..], sh)
    ensures zero <==> IsZero(r[..], sh)
    ensures FirstPassFits(r[..], sh) ==> (zero <==> Value(r[..], sh.radix) % P == 0)
  {
    ghost var s := r[..];
    if FirstPassFits(s, sh) {
      IsZeroMeans(s, sh);
    }
    var n := sh.count - 1;
    var x := r[n] / sh.top;
    var t0 := Add(r[0], MulNat(x, sh.c0), sh.word);
    var z0 := t0 % sh.radix;
    var z1 := Xor(z0, Delta(sh, 0));
    FirstLimb(s, sh);
    if z0 != 0 && z1 != sh.radix - 1 {
      return false;
    }
    var t := Copy(r);
    t[n] := t[n] % sh.top;
    t[0] := t0;
    t[1] := Add(t[1], MulNat(x, sh.c1), sh.word);
    assert t[..] == Folded(s[n := s[n] % sh.top], x, sh);
    zero := ZeroFrom(t, z0, z1, sh, s);
  }

  lemma FirstOfCarried(f: seq<nat>, sh: Shape)
    requires Known(sh) && Element(f, sh)
    ensures Carried(f, 0, sh.radix, sh.word)[0] == f[0] % sh.radix
  {
    ModSmall(f[0], sh.word);
  }

  lemma FirstDetects(z0: nat, sh: Shape)
    requires Known(sh) && z0 < sh.radix
    ensures Xor(z0, Delta(sh, 0)) == sh.radix - 1 <==> z0 == PrimeLimb(sh, 0)
  {
    RadixBits(sh);
    XorDetects(z0, Delta(sh, 0), LimbBits(sh));
  }

  /** A first limb that belongs neither to zero nor to p settles the matter. */
  lemma FirstLimb(s: seq<nat>, sh: Shape)
    requires Known(sh) && Element(s, sh)
    ensures var n := |s| - 1;
            var t := s[n := s[n] % sh.top];
            var x := s[n] / sh.top;
            var z0 := Add(s[0], MulNat(x, sh.c0), sh.word) % sh.radix;
            && Element(t, sh) && Element(Folded(t, x, sh), sh)
            && (z0 != 0 && Xor(z0, Delta(sh, 0)) != sh.radix - 1 ==> !IsZero(s, sh))
  {
    var n := |s| - 1;
    var t, x := s[n := s[n] % sh.top], s[n] / sh.top;
    DivMod(s[n], sh.top);
    FoldedWords(t, x, sh);
    var f := Folded(t, x, sh);
    FirstOfCarried(f, sh);
    DivMod(f[0], sh.radix);
    FirstDetects(f[0] % sh.radix, sh);
    ZeroVerdict(s, sh);
  }
}
