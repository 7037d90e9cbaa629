/**
 Public keys as bytes (SEC 1, sections 2.3.3 and 2.3.4): `eckey_pubkey_parse` and
 `eckey_pubkey_serialize`.
 */
module PubkeyCodec {
  import opened ByteStrings
  import opened FieldReduce
  import opened FieldPower
  import Cubes

  const TAG_EVEN: byte := 0x02
  const TAG_ODD: byte := 0x03
  const TAG_UNCOMPRESSED: byte := 0x04
  const TAG_HYBRID_EVEN: byte := 0x06
  const TAG_HYBRID_ODD: byte := 0x07

  /** A point in affine coordinates, which are residues. */
  datatype Ge = Infinity | Affine(x: nat, y: nat)

  /** x^3 + 7. */
  function Curve(x: nat): (r: nat)
    ensures r < P
  {
    (7 + FMul(x, FMul(x, x))) % P
  }

  /** The coordinates are reduced and y^2 = x^3 + 7. */
  predicate OnCurve(x: nat, y: nat) {
    x < P && y < P && FMul(y, y) == Curve(x)
  }

  predicate IsOdd(y: nat) {
    y % 2 == 1
  }

  /** No point of the curve has y = 0. */
  lemma NoZeroY(x: nat, y: nat)
    requires Fermat() && OnCurve(x, y)
    ensures y != 0
  {
    if y == 0 {
      FMulMod(0, 0);
      Cubes.MinusSeven(x);
      SumIsZeroMod(FMul(x, FMul(x, x)));
    }
  }

  lemma SumIsZeroMod(c: nat)
    requires c < P && (7 + c) % P == 0
    ensures c == P - 7
  {
  }

  lemma NegatedParity(y: nat)
    requires 0 < y < P
    ensures IsOdd(FNeg(y)) != IsOdd(y)
  {
  }

  /** `secp256k1_ge_set_xo_var`: the point with this x and this parity of y. */
  method SetXo(x: nat, odd: bool) returns (ok: bool, elem: Ge)
    requires x < P && Fermat()
    ensures ok ==> elem.Affine? && elem.x == x && OnCurve(x, elem.y) && IsOdd(elem.y) == odd
    ensures forall y: nat :: OnCurve(x, y) && IsOdd(y) == odd ==> ok && elem == Affine(x, y)
  {
    var x2 := FMul(x, x);
    var x3 := FMul(x, x2);
    var c := (7 + x3) % P;
    assert c == Curve(x);
    var y;
    ok, y := Sqrt(c);
    ghost var root := y;
    if ok && IsOdd(y) != odd {
      NegatedSquare(y);
      y := FNeg(y);
    }
    elem := Affine(x, y);
    if ok {
      NoZeroY(x, root);
      Parities(root, y, odd);
    }
    forall z: nat | OnCurve(x, z) && IsOdd(z) == odd ensures ok && y == z {
      Chosen(root, z, odd);
    }
  }

  lemma Parities(root: nat, y: nat, odd: bool)
    requires 0 < root < P && y == if IsOdd(root) != odd then FNeg(root) else root
    ensures IsOdd(y) == odd
  {
    NegatedParity(root);
  }

  lemma Chosen(root: nat, z: nat, odd: bool)
    requires root < P && z < P && (root == z || root == FNeg(z)) && IsOdd(z) == odd
    ensures z == if IsOdd(root) != odd then FNeg(root) else root
  {
    if z != 0 {
      NegatedParity(z);
    }
  }

  /** `secp256k1_fe_set_b32`: fails for a number that is not below p. */
  method SetB32(b: seq<byte>) returns (ok: bool, x: nat)
    requires |b| == 32
    ensures x == FromBytes(b) && (ok <==> x < P)
  {
    x := FromBytes(b);
    ok := x < P;
  }

  // ---- the encodings ----

  /** What the serializer writes for a point. */
  function Encoding(x: nat, y: nat, compressed: bool): seq<byte> {
    if compressed then [if IsOdd(y) then TAG_ODD else TAG_EVEN] + Fixed(x, 32)
    else [TAG_UNCOMPRESSED] + Fixed(x, 32) + Fixed(y, 32)
  }

  /** pub is an encoding of the point: compressed, uncompressed or hybrid. */
  ghost predicate Encodes(pub: seq<byte>, x: nat, y: nat) {
    || pub == Encoding(x, y, true)
    || pub == Encoding(x, y, false)
    || pub == [if IsOdd(y) then TAG_HYBRID_ODD else TAG_HYBRID_EVEN] + Fixed(x, 32) + Fixed(y, 32)
  }

  /** The encodings octet by octet: 2 or 3 by the parity of y and x; 4, or 6 or 7 by
      the parity of y, and x and y. */
  ghost predicate Octets(pub: seq<byte>, x: nat, y: nat) {
    || (|pub| == 33 && pub[0] == 2 + y % 2 && FromBytes(pub[1..]) == x)
    || (|pub| == 65 && (pub[0] == 4 || pub[0] == 6 + y % 2) && FromBytes(pub[1..33]) == x && FromBytes(pub[33..]) == y)
  }

  lemma EncodesOctets(pub: seq<byte>, x: nat, y: nat)
    requires x < P && y < P
    ensures Encodes(pub, x, y) <==> Octets(pub, x, y)
  {
    if |pub| == 33 {
      CompressedParts(pub);
      if Encodes(pub, x, y) {
        FixedFits(x);
        assert pub[1..] == Fixed(x, 32);
      }
    } else if |pub| == 65 {
      FullParts(pub);
      if Encodes(pub, x, y) {
        FixedFits(x);
        FixedFits(y);
        assert pub[1..33] == Fixed(x, 32) && pub[33..] == Fixed(y, 32);
      }
    }
  }

  lemma FixedFits(x: nat)
    requires x < P
    ensures FromBytes(Fixed(x, 32)) == x
  {
    Pow256Of32();
    FromFixed(x, 32);
  }

  lemma CompressedParts(pub: seq<byte>)
    requires |pub| == 33
    ensures pub == [pub[0]] + Fixed(FromBytes(pub[1..]), 32)
  {
    FixedFrom(pub[1..]);
  }

  lemma FullParts(pub: seq<byte>)
    requires |pub| == 65
    ensures pub == [pub[0]] + Fixed(FromBytes(pub[1..33]), 32) + Fixed(FromBytes(pub[33..]), 32)
  {
    FixedFrom(pub[1..33]);
    FixedFrom(pub[33..]);
  }

  lemma EncodesCompressed(pub: seq<byte>, x: nat, y: nat)
    requires OnCurve(x, y) && Encodes(pub, x, y) && |pub| == 33
    ensures FromBytes(pub[1..]) == x && pub[0] == if IsOdd(y) then TAG_ODD else TAG_EVEN
  {
    FixedFits(x);
    assert pub[1..] == Fixed(x, 32);
  }

  lemma EncodesFull(pub: seq<byte>, x: nat, y: nat)
    requires OnCurve(x, y) && Encodes(pub, x, y) && |pub| == 65
    ensures FromBytes(pub[1..33]) == x && FromBytes(pub[33..]) == y
    ensures pub[0] == TAG_UNCOMPRESSED || pub[0] == if IsOdd(y) then TAG_HYBRID_ODD else TAG_HYBRID_EVEN
  {
    FixedFits(x);
    FixedFits(y);
    assert pub[1..33] == Fixed(x, 32) && pub[33..] == Fixed(y, 32);
  }

  /** Parsing accepts exactly the encodings of points on the curve. */
  method Parse(pub: seq<byte>) returns (ok: bool, elem: Ge)
    requires Fermat()
    ensures ok ==> elem.Affine? && OnCurve(elem.x, elem.y) && Encodes(pub, elem.x, elem.y)
    ensures forall x: nat, y: nat :: OnCurve(x, y) && Encodes(pub, x, y) ==> ok && elem == Affine(x, y)
    ensures ok ==> Octets(pub, elem.x, elem.y)
    ensures forall x: nat, y: nat :: OnCurve(x, y) && Octets(pub, x, y) ==> ok && elem == Affine(x, y)
  {
    forall x: nat, y: nat | OnCurve(x, y) ensures Encodes(pub, x, y) <==> Octets(pub, x, y) {
      EncodesOctets(pub, x, y);
    }
    ok, elem := false, Infinity;
    if |pub| == 33 && (pub[0] == TAG_EVEN || pub[0] == TAG_ODD) {
      ok, elem := ParseCompressed(pub);
    } else if |pub| == 65 && (pub[0] == TAG_UNCOMPRESSED || pub[0] == TAG_HYBRID_EVEN || pub[0] == TAG_HYBRID_ODD) {
      ok, elem := ParseFull(pub);
    }
  }

  method ParseCompressed(pub: seq<byte>) returns (ok: bool, elem: Ge)
    requires Fermat() && |pub| == 33 && (pub[0] == TAG_EVEN || pub[0] == TAG_ODD)
    ensures ok ==> elem.Affine? && OnCurve(elem.x, elem.y) && Encodes(pub, elem.x, elem.y)
    ensures forall x: nat, y: nat :: OnCurve(x, y) && Encodes(pub, x, y) ==> ok && elem == Affine(x, y)
  {
    forall x: nat, y: nat | OnCurve(x, y) && Encodes(pub, x, y)
      ensures x == FromBytes(pub[1..]) && IsOdd(y) == (pub[0] == TAG_ODD)
    {
      EncodesCompressed(pub, x, y);
    }
    CompressedParts(pub);
    var x;
    ok, x := SetB32(pub[1..]);
    elem := Infinity;
    if ok {
      ok, elem := SetXo(x, pub[0] == TAG_ODD);
    }
  }

  method ParseFull(pub: seq<byte>) returns (ok: bool, elem: Ge)
    requires |pub| == 65 && (pub[0] == TAG_UNCOMPRESSED || pub[0] == TAG_HYBRID_EVEN || pub[0] == TAG_HYBRID_ODD)
    ensures ok ==> elem.Affine? && OnCurve(elem.x, elem.y) && Encodes(pub, elem.x, elem.y)
    ensures forall x: nat, y: nat :: OnCurve(x, y) && Encodes(pub, x, y) ==> ok && elem == Affine(x, y)
  {
    forall x: nat, y: nat | OnCurve(x, y) && Encodes(pub, x, y)
      ensures x == FromBytes(pub[1..33]) && y == FromBytes(pub[33..])
      ensures pub[0] == TAG_UNCOMPRESSED || IsOdd(y) == (pub[0] == TAG_HYBRID_ODD)
    {
      EncodesFull(pub, x, y);
    }
    FullParts(pub);
    elem := Infinity;
    var okx, x := SetB32(pub[1..33]);
    var oky, y := SetB32(pub[33..]);
    if !okx || !oky {
      return false, elem;
    }
    elem := Affine(x, y);
    if (pub[0] == TAG_HYBRID_EVEN || pub[0] == TAG_HYBRID_ODD) && IsOdd(y) != (pub[0] == TAG_HYBRID_ODD) {
      return false, elem;
    }
    ok := FMul(y, y) == Curve(x);
  }

  /** The serializer: nothing for infinity. */
  method Serialize(elem: Ge, pub: array<byte>, compressed: bool) returns (ok: bool, size: nat)
    requires pub.Length >= (if compressed then 33 else 65)
    modifies pub
    ensures ok <==> elem.Affine?
    ensures ok ==> size == |Encoding(elem.x, elem.y, compressed)|
    ensures ok ==> pub[..] == Encoding(elem.x, elem.y, compressed) + old(pub[size..])
    ensures !ok ==> pub[..] == old(pub[..])
  {
    if elem.Infinity? {
      return false, 0;
    }
    ghost var before := pub[..];
    CopyInto(pub, 1, Fixed(elem.x, 32));
    ghost var after := pub[..];
    if compressed {
      size := 33;
      pub[0] := if IsOdd(elem.y) then TAG_ODD else TAG_EVEN;
    } else {
      size := 65;
      pub[0] := TAG_UNCOMPRESSED;
      assert pub[..33] == [TAG_UNCOMPRESSED] + Fixed(elem.x, 32);
      CopyInto(pub, 33, Fixed(elem.y, 32));
    }
    ok := true;
  }

  /** Parsing what was serialized gives the point back. */
  method RoundTrip(x: nat, y: nat, compressed: bool) returns (ok: bool, elem: Ge)
    requires Fermat() && OnCurve(x, y)
    ensures ok && elem == Affine(x, y)
  {
    var pub := new byte[65](_ => 0);
    var size;
    ok, size := Serialize(Affine(x, y), pub, compressed);
    ok, elem := Parse(pub[..size]);
  }
}
