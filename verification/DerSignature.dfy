/**
 `secp256k1_ecdsa_sig_parse` and `secp256k1_ecdsa_sig_serialize`: each undoes the other.
 */
module DerSignature {
  import opened ByteStrings
  import opened Scalars
  import opened Der

  /** The sequence header is not that of a signature. */
  lemma BadHeader(sig: seq<byte>, len: int, p: nat)
    requires sig == [] || sig[0] != 0x30 || (ReadsLength(sig, 1, len, p) && (len < 0 || p + len != |sig|))
    ensures forall cr, cs :: !Denotes(sig, cr, cs)
  {
    forall cr, cs | Denotes(sig, cr, cs) ensures false {
      var _, _ := DenotesParts(sig, cr, cs);
    }
  }

  /** What the two integer parsers found after a good header decides. */
  lemma Verdict(sig: seq<byte>, len: nat, p: nat, ok1: bool, r: nat, m: nat, ok2: bool, s: nat, e: nat)
    requires sig != [] && sig[0] == 0x30 && ReadsLength(sig, 1, len, p) && p + len == |sig|
    requires ParsesInteger(sig, p, ok1, r, m) && (ok1 ==> ParsesInteger(sig, m, ok2, s, e))
    ensures forall cr, cs :: Denotes(sig, cr, cs) ==>
      ok1 && ok2 && e == |sig| && r == ScalarOf(cr) && s == ScalarOf(cs)
  {
    forall cr, cs | Denotes(sig, cr, cs)
      ensures ok1 && ok2 && e == |sig| && r == ScalarOf(cr) && s == ScalarOf(cs)
    {
      var q, n := DenotesParts(sig, cr, cs);
      assert LengthAt(sig, 1, |sig| - q, q);
      assert IntegerAt(sig, q, cr, n) && IntegerAt(sig, n, cs, |sig|);
    }
  }

  /** The strict parser. It accepts exactly the DER encodings of two integers, and
      yields two nonzero scalars exactly on what the serializer writes for them. */
  method SigParse(sig: seq<byte>) returns (ok: bool, r: nat, s: nat, ghost cr: seq<byte>, ghost cs: seq<byte>)
    ensures ok ==> Denotes(sig, cr, cs) && r == ScalarOf(cr) && s == ScalarOf(cs)
    ensures !ok ==> forall c, d :: !Denotes(sig, c, d)
    ensures ok && r != 0 && s != 0 ==> sig == Serialized(r, s)
    ensures forall x: nat, y: nat :: x < N && y < N && sig == Serialized(x, y) ==> ok && r == x && s == y
  {
    ok, r, s, cr, cs := SigRead(sig);
    if ok && r != 0 && s != 0 {
      OnlySerialized(sig, cr, cs);
    }
    forall x: nat, y: nat | x < N && y < N && sig == Serialized(x, y) ensures ok && r == x && s == y {
      SerializedDenotes(x, y);
    }
  }

  method SigRead(sig: seq<byte>) returns (ok: bool, r: nat, s: nat, ghost cr: seq<byte>, ghost cs: seq<byte>)
    ensures ok ==> Denotes(sig, cr, cs) && r == ScalarOf(cr) && s == ScalarOf(cs)
    ensures forall c, d :: Denotes(sig, c, d) ==> ok && r == ScalarOf(c) && s == ScalarOf(d)
  {
    ok, r, s, cr, cs := false, 0, 0, [], [];
    if sig == [] || sig[0] != 0x30 {
      BadHeader(sig, 0, 0);
      return;
    }
    var rlen, p := ReadLen(sig, 1);
    if rlen < 0 || p + rlen > |sig| {
      BadHeader(sig, rlen, p);
      return;
    }
    if p + rlen != |sig| {
      BadHeader(sig, rlen, p);
      return;
    }
    var ok1, m;
    ok1, r, m, cr := ParseInteger(sig, p);
    if !ok1 {
      Verdict(sig, rlen, p, ok1, r, m, false, 0, 0);
      return;
    }
    var ok2, e;
    ok2, s, e, cs := ParseInteger(sig, m);
    Verdict(sig, rlen, p, ok1, r, m, ok2, s, e);
    if !ok2 {
      return;
    }
    if e != |sig| {
      return;
    }
    DenotesFrom(sig, p, m, cr, cs);
    ok := true;
  }

  // ---- serialization ----

  /** A suffix of the 33 bytes that still stands for the number. */
  ghost predicate Stripping(t: seq<byte>, n: nat) {
    t != [] && t[0] < 0x80 && FromBytes(t) == n
  }

  lemma StripStart(n: nat)
    requires n < N
    ensures Stripping([0] + Fixed(n, 32), n)
  {
    Pow256Of32();
    FromFixed(n, 32);
    DropZero([0] + Fixed(n, 32));
    assert ([0] + Fixed(n, 32))[1..] == Fixed(n, 32);
  }

  /** `while (lenR > 1 && rp[0] == 0 && rp[1] < 0x80) { lenR--; rp++; }` */
  method Strip(n: nat) returns (t: seq<byte>)
    requires n < N
    ensures t == Integer(n)
  {
    t := [0] + Fixed(n, 32);
    StripStart(n);
    while |t| > 1 && t[0] == 0 && t[1] < 0x80
      invariant Stripping(t, n)
      decreases |t|
    {
      DropZero(t);
      t := t[1..];
    }
    IntegerUnique(t);
  }

  /** `sig[at] = 0x02; sig[at + 1] = len; memcpy(sig + at + 2, c, len)`. */
  method PutInteger(sig: array<byte>, at: nat, c: seq<byte>)
    requires at + 2 + |c| <= sig.Length && |c| < 128
    modifies sig
    ensures sig[..] == old(sig[..at]) + ([0x02, |c|] + c) + old(sig[at + 2 + |c|..])
  {
    sig[at] := 0x02;
    sig[at + 1] := |c|;
    assert sig[..at + 2] == old(sig[..at]) + [0x02, |c|];
    CopyInto(sig, at + 2, c);
  }

  method PutHeader(sig: array<byte>, len: byte)
    requires sig.Length >= 2
    modifies sig
    ensures sig[..] == [0x30, len] + old(sig[2..])
  {
    sig[0], sig[1] := 0x30, len;
  }

  lemma Layout(a: seq<byte>, b: seq<byte>, c: seq<byte>, d: seq<byte>, h: seq<byte>, x: seq<byte>, y: seq<byte>)
    requires |h| + |x| + |y| <= |a| && b == h + a[|h|..]
    requires c == b[..|h|] + x + b[|h| + |x|..]
    requires d == c[..|h| + |x|] + y + c[|h| + |x| + |y|..]
    ensures d == h + x + y + a[|h| + |x| + |y|..]
  {
  }

  method WriteSignature(sig: array<byte>, rp: seq<byte>, sp: seq<byte>)
    requires 6 + |rp| + |sp| <= sig.Length && |rp| <= 33 && |sp| <= 33
    modifies sig
    ensures sig[..] == [0x30, 4 + |rp| + |sp|] + ([0x02, |rp|] + rp) + ([0x02, |sp|] + sp)
                     + old(sig[6 + |rp| + |sp|..])
  {
    ghost var a := sig[..];
    ghost var x: seq<byte>, y: seq<byte> := [0x02, |rp|] + rp, [0x02, |sp|] + sp;
    PutHeader(sig, 4 + |rp| + |sp|);
    ghost var b := sig[..];
    PutInteger(sig, 2, rp);
    ghost var c := sig[..];
    PutInteger(sig, 2 + (2 + |rp|), sp);
    Layout(a, b, c, sig[..], [0x30, 4 + |rp| + |sp|], x, y);
  }

  /** The serializer, with the size of the buffer in and the size needed out. It
      fails exactly when the buffer is too small, and then leaves it alone. */
  method SigSerialize(sig: array<byte>, size: nat, r: nat, s: nat) returns (ok: bool, size': nat)
    requires r < N && s < N && size <= sig.Length
    modifies sig
    ensures size' == |Serialized(r, s)|
    ensures ok <==> size' <= size
    ensures sig[..] == if ok then Serialized(r, s) + old(sig[size'..]) else old(sig[..])
  {
    SerializedSize(r, s);
    IntegerSize(r);
    IntegerSize(s);
    var rp := Strip(r);
    var sp := Strip(s);
    var lenR, lenS := |rp|, |sp|;
    size' := 6 + lenS + lenR;
    if size < size' {
      return false, size';
    }
    WriteSignature(sig, rp, sp);
    ok := true;
  }
}
