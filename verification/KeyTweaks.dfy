/**
 Tweaks of private and public keys, `eckey_privkey_tweak_*` and `eckey_pubkey_tweak_*`.
 */
module KeyTweaks {
  import opened Scalars
  import opened Residues
  import opened CurveGroup
  import opened Wrappers
  import opened Strauss

  /** The public key of a private one. */
  ghost function Public<P(!new)>(g: Group<P>, key: Scalar): P {
    Mul(g, key, g.gen)
  }

  /** `secp256k1_eckey_privkey_tweak_add`. The key is overwritten even where this fails. */
  method PrivkeyTweakAdd(key: Scalar, tweak: Scalar) returns (ok: bool, key': Scalar)
    ensures Congruent(key', key + tweak) && (ok <==> !Congruent(key + tweak, 0))
  {
    key' := ScalarAdd(key, tweak);
    Reduced(key, tweak);
    ok := key' != 0;
    if Congruent(key + tweak, 0) {
      Chain(key', key + tweak, 0);
      Equal(key', 0);
    } else if key' == 0 {
      Symmetric(key', key + tweak);
    }
  }

  /** `secp256k1_eckey_pubkey_tweak_add`: one ecmult with scalar 1 for the key. */
  method PubkeyTweakAdd<P(==, !new)>(g: Group<P>, preG: seq<P>, key: P, tweak: Scalar) returns (ok: bool, key': P)
    requires Laws(g) && GeneratorTable(g, preG)
    ensures var q := g.add(key, Mul(g, tweak, g.gen));
            ok == (q != g.zero) && key' == if ok then q else key
  {
    var pt := Ecmult(g, preG, key, 1, Some(tweak));
    MulSmall(g, key);
    if pt == g.zero {
      return false, key;
    }
    return true, pt;
  }

  /** `secp256k1_eckey_privkey_tweak_mul`. */
  method PrivkeyTweakMul(key: Scalar, tweak: Scalar) returns (ok: bool, key': Scalar)
    ensures ok <==> tweak != 0
    ensures if ok then Congruent(key', key * tweak) else key' == key
  {
    if tweak == 0 {
      return false, key;
    }
    Reduced(key, tweak);
    return true, ScalarMul(key, tweak);
  }

  /** `secp256k1_eckey_pubkey_tweak_mul`: one ecmult with scalar 0 for the generator. */
  method PubkeyTweakMul<P(==, !new)>(g: Group<P>, preG: seq<P>, key: P, tweak: Scalar) returns (ok: bool, key': P)
    requires Laws(g) && GeneratorTable(g, preG)
    ensures ok <==> tweak != 0
    ensures key' == if ok then Mul(g, tweak, key) else key
  {
    if tweak == 0 {
      return false, key;
    }
    var pt := Ecmult(g, preG, key, tweak, Some(0));
    MulSmall(g, g.gen);
    Zero(g, Mul(g, tweak, key));
    return true, pt;
  }

  /** Deriving the sum: one multiple of the generator, infinite exactly for zero. */
  lemma SumDerives<P(!new)>(g: Group<P>, key: Scalar, tweak: Scalar, key': Scalar)
    requires Laws(g) && PrimeOrder(g) && g.gen != g.zero && Congruent(key', key + tweak)
    ensures g.add(Public(g, key), Mul(g, tweak, g.gen)) == Public(g, key')
    ensures Public(g, key') == g.zero <==> Congruent(key + tweak, 0)
  {
    MulAdd(g, key, tweak, g.gen);
    MulCongruent(g, key', key + tweak, g.gen);
    CongruentMod(key + tweak, 0);
    assert AtMul(key + tweak, g.gen);
  }

  lemma ProductDerives<P(!new)>(g: Group<P>, key: Scalar, tweak: Scalar, key': Scalar)
    requires Laws(g) && Congruent(key', key * tweak)
    ensures Mul(g, tweak, Public(g, key)) == Public(g, key')
  {
    var t: int, k: int := tweak, key;
    MulMul(g, t, k, g.gen);
    assert t * k == k * t;
    MulCongruent(g, key', k * t, g.gen);
  }

  /** Tweaking the private key and deriving is deriving and tweaking the public
      key: the same outcome, and the same key where there is one. */
  method AddCommutes<P(==, !new)>(g: Group<P>, preG: seq<P>, key: Scalar, pubkey: P, tweak: Scalar)
      returns (okPriv: bool, okPub: bool, priv: Scalar, pub: P)
    requires Laws(g) && PrimeOrder(g) && g.gen != g.zero && GeneratorTable(g, preG)
    requires pubkey == Public(g, key)
    ensures okPriv == okPub && (okPriv ==> pub == Public(g, priv))
  {
    okPriv, priv := PrivkeyTweakAdd(key, tweak);
    okPub, pub := PubkeyTweakAdd(g, preG, pubkey, tweak);
    SumDerives(g, key, tweak, priv);
  }

  method MulCommutes<P(==, !new)>(g: Group<P>, preG: seq<P>, key: Scalar, pubkey: P, tweak: Scalar)
      returns (okPriv: bool, okPub: bool, priv: Scalar, pub: P)
    requires Laws(g) && GeneratorTable(g, preG) && pubkey == Public(g, key)
    ensures okPriv == okPub && pub == Public(g, priv)
  {
    okPriv, priv := PrivkeyTweakMul(key, tweak);
    okPub, pub := PubkeyTweakMul(g, preG, pubkey, tweak);
    if okPriv {
      ProductDerives(g, key, tweak, priv);
    }
  }
}
