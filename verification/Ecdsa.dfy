/**
 ECDSA signing and verification (SEC 1, sections 4.1.3 and 4.1.4), with the
 test of the x coordinate that needs no inversion.
 */
module Ecdsa {
  import opened Arith
  import opened Modular
  import opened Scalars
  import opened Residues
  import opened CurveGroup
  import opened Wrappers
  import opened Strauss
  import opened EcmultGen
  import FieldReduce
  import FieldPower
  import FieldCongruence
  import Jacobian

  const FIELD: int := FieldReduce.P

  /** `secp256k1_ecdsa_const_p_minus_order`. */
  const P_MINUS_N: int := 0x1_45512319_50B75FC4_402DA172_2FC9BAEE

  /** The group with what the scheme reads off a finite point: its x coordinate,
      the parity of its y coordinate, and the Jacobian coordinates that it is held in. */
  datatype Curve<!P(==, !new)> = Curve(g: Group<P>, x: P -> nat, odd: P -> bool, held: P -> Jacobian.Jac)

  /** x is the affine x coordinate of the Jacobian coordinates a. */
  ghost predicate AffineX(x: nat, a: Jacobian.Jac) {
    0 < a.z < FIELD && a.x < FIELD && FieldCongruence.Eq(x * (a.z * a.z), a.x)
  }

  /** The negated point has the same x and, y being nonzero, the other parity. */
  ghost predicate CurveLaws<P(!new)>(cv: Curve<P>) {
    && Laws(cv.g)
    && forall p: P {:trigger At1(p)} :: p != cv.g.zero ==>
         && cv.x(p) < FIELD && cv.x(cv.g.neg(p)) == cv.x(p) && cv.odd(cv.g.neg(p)) != cv.odd(p)
         && AffineX(cv.x(p), cv.held(p))
  }

  lemma NegatedPoint<P(!new)>(cv: Curve<P>, p: P)
    requires CurveLaws(cv) && p != cv.g.zero
    ensures cv.x(p) < FIELD && cv.g.neg(p) != cv.g.zero
    ensures cv.x(cv.g.neg(p)) == cv.x(p) && cv.odd(cv.g.neg(p)) != cv.odd(p)
    ensures AffineX(cv.x(p), cv.held(p))
  {
    assert At1(p);
    Zero(cv.g, p);
  }

  // ---- verification ----

  /** u2 * Q + u1 * G with u1 = m / s and u2 = r / s. */
  ghost function Recomputed<P(!new)>(cv: Curve<P>, inv: Scalar -> Scalar, r: Scalar, s: Scalar, q: P, m: Scalar): P {
    cv.g.add(Mul(cv.g, ScalarMul(inv(s), r), q), Mul(cv.g, ScalarMul(inv(s), m), cv.g.gen))
  }

  /** The signature (r, s) is valid for message m and public key q. */
  ghost predicate Accepts<P(!new)>(cv: Curve<P>, inv: Scalar -> Scalar, r: Scalar, s: Scalar, q: P, m: Scalar) {
    && r != 0 && s != 0
    && var pr := Recomputed(cv, inv, r, s, q, m);
       pr != cv.g.zero && cv.x(pr) % N == r
  }

  // ---- what verification accepts ----

  /** p is a point that the signature may have come from: s p = m G + r Q, with r its
      x coordinate modulo n. */
  ghost predicate Explains<P(!new)>(cv: Curve<P>, r: Scalar, s: Scalar, q: P, m: Scalar, p: P) {
    && p != cv.g.zero && cv.x(p) % N == r
    && Mul(cv.g, s, p) == cv.g.add(Mul(cv.g, m, cv.g.gen), Mul(cv.g, r, q))
  }

  /** A signature is valid when both halves are nonzero and some point explains it. */
  ghost predicate Valid<P(!new)>(cv: Curve<P>, r: Scalar, s: Scalar, q: P, m: Scalar) {
    r != 0 && s != 0 && exists p: P :: Explains(cv, r, s, q, m, p)
  }

  /** Multiplying by s takes a quotient by s back. */
  lemma TimesQuotient<P(!new)>(g: Group<P>, inv: Scalar -> Scalar, s: Scalar, a: Scalar, p: P)
    requires Laws(g) && Inverts(inv) && s != 0
    ensures Mul(g, s, Mul(g, ScalarMul(inv(s), a), p)) == Mul(g, a, p)
  {
    var u: int := ScalarMul(inv(s), a);
    MulMul(g, s, u, p);
    Reduced(inv(s), a);
    Times(u, inv(s) * a, s);
    Undo(inv, s, a);
    Chain(s * u, s * (inv(s) * a), a);
    MulCongruent(g, s * u, a, p);
  }

  lemma TimesRecomputed<P(!new)>(cv: Curve<P>, inv: Scalar -> Scalar, r: Scalar, s: Scalar, q: P, m: Scalar)
    requires CurveLaws(cv) && Inverts(inv) && s != 0
    ensures Mul(cv.g, s, Recomputed(cv, inv, r, s, q, m)) == cv.g.add(Mul(cv.g, m, cv.g.gen), Mul(cv.g, r, q))
  {
    var g := cv.g;
    MulDist(g, s, Mul(g, ScalarMul(inv(s), r), q), Mul(g, ScalarMul(inv(s), m), g.gen));
    TimesQuotient(g, inv, s, r, q);
    TimesQuotient(g, inv, s, m, g.gen);
    Comm(g, Mul(g, r, q), Mul(g, m, g.gen));
  }

  /** Points with the same multiple by an invertible scalar are the same. */
  lemma SameMultiple<P(!new)>(g: Group<P>, inv: Scalar -> Scalar, s: Scalar, x: P, y: P)
    requires Laws(g) && Inverts(inv) && s != 0 && Mul(g, s, x) == Mul(g, s, y)
    ensures x == y
  {
    MulMul(g, inv(s), s, x);
    MulMul(g, inv(s), s, y);
    MulCongruent(g, inv(s) * s, 1, x);
    MulCongruent(g, inv(s) * s, 1, y);
    MulSmall(g, x);
    MulSmall(g, y);
  }

  /** The accepted signatures are exactly the valid ones. */
  lemma AcceptsValid<P(!new)>(cv: Curve<P>, inv: Scalar -> Scalar, r: Scalar, s: Scalar, q: P, m: Scalar)
    requires CurveLaws(cv) && Inverts(inv)
    ensures Accepts(cv, inv, r, s, q, m) <==> Valid(cv, r, s, q, m)
  {
    if r != 0 && s != 0 {
      var pr := Recomputed(cv, inv, r, s, q, m);
      TimesRecomputed(cv, inv, r, s, q, m);
      if Accepts(cv, inv, r, s, q, m) {
        assert Explains(cv, r, s, q, m, pr);
      } else if Valid(cv, r, s, q, m) {
        var p :| Explains(cv, r, s, q, m, p);
        SameMultiple(cv.g, inv, s, p, pr);
      }
    }
  }

  /** 2 n > p, so that x mod n = r leaves two possibilities for x. */
  lemma TwoCandidates(x: int, r: int)
    requires 0 <= x < FIELD && 0 <= r < N
    ensures x % N == r <==> x == r || (r < P_MINUS_N && x == r + N)
  {
    if x < N {
      ModSmall(x, N);
    } else {
      DivModUnique(x, N, 1, x - N);
    }
  }

  /** `secp256k1_gej_eq_x_var`: whether xr is the affine x coordinate of a, without
      dividing by the square of z. */
  method GejEqX(xr: nat, a: Jacobian.Jac, ghost x: nat) returns (b: bool)
    requires FieldPower.Fermat() && xr < FIELD && x < FIELD && AffineX(x, a)
    ensures b <==> x == xr
  {
    var r := FieldPower.FMul(a.z, a.z);
    r := FieldPower.FMul(r, xr);
    b := r == a.x;
    Jacobian.CrossMultiplied(x, xr, a.x, a.z);
  }

  /** `secp256k1_ecdsa_sig_verify`. */
  method SigVerify<P(==, !new)>(cv: Curve<P>, inv: Scalar -> Scalar, preG: seq<P>, r: Scalar, s: Scalar, q: P,
                                m: Scalar) returns (valid: bool)
    requires CurveLaws(cv) && GeneratorTable(cv.g, preG) && FieldPower.Fermat()
    ensures valid <==> Accepts(cv, inv, r, s, q, m)
    ensures Inverts(inv) ==> (valid <==> Valid(cv, r, s, q, m))
  {
    if Inverts(inv) {
      AcceptsValid(cv, inv, r, s, q, m);
    }
    if r == 0 || s == 0 {
      return false;
    }
    var sn := inv(s);
    var u1 := ScalarMul(sn, m);
    var u2 := ScalarMul(sn, r);
    var pr := Ecmult(cv.g, preG, q, u2, Some(u1));
    assert pr == Recomputed(cv, inv, r, s, q, m);
    if pr == cv.g.zero {
      return false;
    }
    NegatedPoint(cv, pr);
    TwoCandidates(cv.x(pr), r);
    var xr: int := r;
    valid := GejEqX(xr, cv.held(pr), cv.x(pr));
    if valid {
      return true;
    }
    if xr >= P_MINUS_N {
      return false;
    }
    xr := xr + N;
    valid := GejEqX(xr, cv.held(pr), cv.x(pr));
  }

  // ---- signing ----

  /** Bit 1: x was not below the order. Bit 0: y is odd. */
  function RecId(overflow: bool, odd: bool): nat {
    (if overflow then 2 else 0) + (if odd then 1 else 0)
  }

  /** s is a signature scalar for the sum e = m + r d: k s is e or its negative. */
  ghost predicate Solves(k: int, s: int, e: int, flipped: bool) {
    Congruent(k * s, if flipped then -e else e)
  }

  lemma Quotient(inv: Scalar -> Scalar, k: Scalar, e: int, n: Scalar)
    requires Inverts(inv) && k != 0 && Congruent(n, e)
    ensures var s := ScalarMul(inv(k), n);
            Solves(k, s, e, false) && (s == 0 <==> Congruent(e, 0))
  {
    var s := ScalarMul(inv(k), n);
    Reduced(inv(k), n);
    Times(s, inv(k) * n, k);
    Undo(inv, k, n);
    Chain(k * s, k * (inv(k) * n), n);
    Chain(k * s, n, e);
    if s == 0 {
      Same(0);
      Symmetric(k * s, e);
    } else if Congruent(e, 0) {
      Chain(k * s, e, 0);
      NoZeroDivisor(inv, k, s);
      Equal(s, 0);
    }
  }

  lemma Flipped(k: int, s: Scalar, e: int)
    requires Solves(k, s, e, false)
    ensures Solves(k, Negate(s), e, true)
  {
    Reduced(s, s);
    Times(Negate(s), -(s as int), k);
    Same(0);
    AlikeSum(0, 0, k * s, e, N);
    assert k * -(s as int) == -(k * s);
    Chain(k * Negate(s), -(k * s), -e);
  }

  lemma LowHalf(s: Scalar)
    requires s != 0
    ensures IsHigh(s) ==> 0 < Negate(s) <= HALF_N
  {
  }

  /** The sum m + r d that is divided by the nonce. */
  method MessageSum(r: Scalar, d: Scalar, m: Scalar) returns (n: Scalar)
    ensures Congruent(n, m + r * d)
  {
    n := ScalarMul(r, d);
    Reduced(r, d);
    Reduced(n, m);
    Same(m);
    Plus(m, m, n, r * d);
    Chain(ScalarAdd(n, m), m + n, m + r * d);
    n := ScalarAdd(n, m);
  }

  /** What signing promises of its results, for the point kG. */
  ghost predicate Signed<P(!new)>(cv: Curve<P>, d: Scalar, m: Scalar, k: Scalar, r: Scalar, s: Scalar, recid: nat,
                                  flipped: bool) {
    var p := Mul(cv.g, k, cv.g.gen);
    && 0 < s <= HALF_N && r == cv.x(p) % N && Solves(k, s, m + r * d, flipped)
    && recid == RecId(cv.x(p) >= N, cv.odd(p) != flipped)
  }

  /** `secp256k1_ecdsa_sig_sign`. It fails exactly when s would be zero. */
  method SigSign<P(==, !new)>(cv: Curve<P>, inv: Scalar -> Scalar, ctx: GenContext<P>, d: Scalar, m: Scalar, k: Scalar)
      returns (ok: bool, r: Scalar, s: Scalar, recid: nat, ghost flipped: bool)
    requires ctx.Valid() && ctx.g == cv.g && CurveLaws(cv) && Inverts(inv)
    requires Mul(cv.g, k, cv.g.gen) != cv.g.zero
    ensures r == cv.x(Mul(cv.g, k, cv.g.gen)) % N
    ensures ok <==> !Congruent(m + r * d, 0)
    ensures ok ==> Signed(cv, d, m, k, r, s, recid, flipped)
    ensures ok ==>
      var p := Mul(cv.g, k, cv.g.gen);
      recid < 4 && (recid / 2 == 1 <==> cv.x(p) >= N) && (recid % 2 == 1 <==> cv.odd(p) != flipped)
  {
    assert k != 0;
    var rp := ctx.Gen(k);
    NegatedPoint(cv, rp);
    r := cv.x(rp) % N;
    var overflow := cv.x(rp) >= N;
    recid := RecId(overflow, cv.odd(rp));
    var n := MessageSum(r, d, m);
    s := ScalarMul(inv(k), n);
    Quotient(inv, k, m + r * d, n);
    flipped := false;
    if s == 0 {
      return false, r, s, recid, flipped;
    }
    if IsHigh(s) {
      Flipped(k, s, m + r * d);
      LowHalf(s);
      s := Negate(s);
      recid := if recid % 2 == 0 then recid + 1 else recid - 1;
      flipped := true;
    }
    ok := true;
  }

  // ---- signing, then verifying ----

  lemma Recovers(inv: Scalar -> Scalar, r: Scalar, s: Scalar, d: Scalar, m: Scalar, k: int, flipped: bool)
    requires Inverts(inv) && s != 0 && Solves(k, s, m + r * d, flipped)
    ensures Congruent(ScalarMul(inv(s), r) * d + ScalarMul(inv(s), m), if flipped then -k else k)
  {
    var t, e: int := inv(s), m + r * d;
    Reduced(t, r);
    Reduced(t, m);
    Times(ScalarMul(t, r), t * r, d);
    Plus(ScalarMul(t, r) * d, (t * r) * d, ScalarMul(t, m), t * m);
    Spread(t, r, d, m);
    Divided(inv, s, k, e, flipped);
    Chain(ScalarMul(t, r) * d + ScalarMul(t, m), t * e, if flipped then -k else k);
  }

  lemma Spread(t: int, r: int, d: int, m: int)
    ensures (t * r) * d + t * m == t * (m + r * d)
  {
    assert (t * r) * d == t * (r * d);
  }

  lemma Divided(inv: Scalar -> Scalar, s: Scalar, k: int, e: int, flipped: bool)
    requires Inverts(inv) && s != 0 && Solves(k, s, e, flipped)
    ensures Congruent(inv(s) * e, if flipped then -k else k)
  {
    var j := if flipped then -k else k;
    assert Congruent(e, s * j) by {
      Symmetric(k * s, if flipped then -e else e);
      if flipped {
        Same(0);
        AlikeSum(0, 0, -e, k * s, N);
        assert -(k * s) == s * -k;
      } else {
        assert k * s == s * k;
      }
    }
    Times(e, s * j, inv(s));
    Undo(inv, s, j);
    Chain(inv(s) * e, inv(s) * (s * j), j);
  }

  /** Verification recomputes the nonce's point, or its negative where s was flipped. */
  lemma RecomputesNonce<P(!new)>(cv: Curve<P>, inv: Scalar -> Scalar, d: Scalar, m: Scalar, k: Scalar,
                                 r: Scalar, s: Scalar, flipped: bool)
    requires CurveLaws(cv) && Inverts(inv) && s != 0 && Solves(k, s, m + r * d, flipped)
    ensures var p := Mul(cv.g, k, cv.g.gen);
            Recomputed(cv, inv, r, s, Mul(cv.g, d, cv.g.gen), m) == if flipped then cv.g.neg(p) else p
  {
    var g := cv.g;
    var u1: int, u2: int, j: int := ScalarMul(inv(s), m), ScalarMul(inv(s), r), if flipped then -(k as int) else k;
    MulMul(g, u2, d, g.gen);
    MulAdd(g, u2 * d, u1, g.gen);
    Recovers(inv, r, s, d, m, k, flipped);
    MulCongruent(g, u2 * d + u1, j, g.gen);
    MulNeg(g, k, g.gen);
  }

  /** Every signature that is made is low and valid, and its recovery id gives the
      parity of the point that verification recomputes. */
  lemma SignedIsAccepted<P(!new)>(cv: Curve<P>, inv: Scalar -> Scalar, d: Scalar, m: Scalar, k: Scalar,
                                  r: Scalar, s: Scalar, recid: nat, flipped: bool)
    requires CurveLaws(cv) && Inverts(inv) && r != 0 && Mul(cv.g, k, cv.g.gen) != cv.g.zero
    requires Signed(cv, d, m, k, r, s, recid, flipped)
    ensures Accepts(cv, inv, r, s, Mul(cv.g, d, cv.g.gen), m) && !IsHigh(s)
    ensures var pr := Recomputed(cv, inv, r, s, Mul(cv.g, d, cv.g.gen), m);
            recid < 4 && (recid / 2 == 1 <==> cv.x(pr) >= N) && (recid % 2 == 1 <==> cv.odd(pr))
  {
    RecomputesNonce(cv, inv, d, m, k, r, s, flipped);
    NegatedPoint(cv, Mul(cv.g, k, cv.g.gen));
  }

  /** Signing and then verifying under the signer's public key succeeds. */
  method SignThenVerify<P(==, !new)>(cv: Curve<P>, inv: Scalar -> Scalar, ctx: GenContext<P>, preG: seq<P>,
                                     d: Scalar, m: Scalar, k: Scalar) returns (signed: bool, valid: bool)
    requires ctx.Valid() && ctx.g == cv.g && CurveLaws(cv) && Inverts(inv) && GeneratorTable(cv.g, preG)
    requires FieldPower.Fermat()
    requires Mul(cv.g, k, cv.g.gen) != cv.g.zero && cv.x(Mul(cv.g, k, cv.g.gen)) % N != 0
    ensures signed <==> !Congruent(m + (cv.x(Mul(cv.g, k, cv.g.gen)) % N) * d, 0)
    ensures signed ==> valid
  {
    var r, s, recid;
    ghost var flipped;
    signed, r, s, recid, flipped := SigSign(cv, inv, ctx, d, m, k);
    var q := ctx.Gen(d);
    valid := SigVerify(cv, inv, preG, r, s, q, m);
    if signed {
      SignedIsAccepted(cv, inv, d, m, k, r, s, recid, flipped);
    }
  }
}
