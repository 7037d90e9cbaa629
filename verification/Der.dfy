/**
 The strict DER reading of an ECDSA signature and its serialization
 (X.690, sections 8.1.3 and 8.3).
 */
module Der {
  import opened Arith
  import opened ByteStrings
  import opened Scalars

  /** One more than the largest value of an `int`. */
  const LIMIT: int := 0x8000_0000
  const WORD: nat := 0x1_0000_0000_0000_0000

  // ---- the encoding rules ----

  /** The length octets of n: one octet below 128, else the shortest long form;
      nothing where no long form is long enough. */
  function LengthOctets(n: nat): (h: seq<byte>) {
    if n < 128 then [n]
    else
      var b := ToBytes(n);
      if |b| <= 126 then [0x80 + |b|] + b else []
  }

  /** An element: tag, length, contents. */
  function Tlv(tag: byte, c: seq<byte>): seq<byte> {
    [tag] + LengthOctets(|c|) + c
  }

  /** The contents of an INTEGER: at least one octet, and the first nine bits
      neither all zero nor all one. */
  predicate Minimal(c: seq<byte>) {
    && |c| >= 1
    && !(|c| > 1 && c[0] == 0 && c[1] < 0x80)
    && !(|c| > 1 && c[0] == 0xFF && c[1] >= 0x80)
  }

  /** sig is the DER encoding of a SEQUENCE of the two INTEGERs with these contents. */
  ghost predicate Denotes(sig: seq<byte>, cr: seq<byte>, cs: seq<byte>) {
    var body := Tlv(0x02, cr) + Tlv(0x02, cs);
    |body| < LIMIT && sig == Tlv(0x30, body) && Minimal(cr) && Minimal(cs)
  }

  // ---- lengths ----

  /** The octets from pos to p are the length n. */
  ghost predicate LengthAt(s: seq<byte>, pos: nat, n: nat, p: nat) {
    && pos <= p <= |s| && n < LIMIT && s[pos..p] == LengthOctets(n)
    && (n < 128 || n <= |s| - p)
  }

  lemma FourOctets(n: nat)
    requires 128 <= n < LIMIT
    ensures 1 <= |ToBytes(n)| <= 4 && ToBytes(n)[0] != 0 && FromBytes(ToBytes(n)) == n
  {
    FromTo(n);
    assert Pow256(4) == 0x1_0000_0000;
    if |ToBytes(n)| > 4 {
      AtLeastPower(ToBytes(n), 4);
    }
  }

  lemma FirstOctet(s: seq<byte>, pos: nat, n: nat, p: nat)
    requires LengthAt(s, pos, n, p)
    ensures pos < p && s[pos] == LengthOctets(n)[0]
    ensures n < 128 <==> s[pos] < 128
  {
    if n >= 128 {
      FourOctets(n);
    }
    assert s[pos..p][0] == s[pos];
  }

  lemma ShortForm(s: seq<byte>, pos: nat)
    requires pos < |s| && s[pos] < 0x80
    ensures LengthAt(s, pos, s[pos], pos + 1)
    ensures forall n, p :: LengthAt(s, pos, n, p) ==> n == s[pos] && p == pos + 1
  {
    assert s[pos..pos + 1] == [s[pos]];
    forall n: nat, p: nat | LengthAt(s, pos, n, p) ensures n == s[pos] && p == pos + 1 {
      FirstOctet(s, pos, n, p);
    }
  }

  lemma LongForm(s: seq<byte>, pos: nat, n: nat, p: nat)
    requires pos < |s| && s[pos] >= 0x80 && LengthAt(s, pos, n, p)
    ensures 1 <= s[pos] - 0x80 <= 4 && p == pos + 1 + (s[pos] - 0x80) && 128 <= n <= |s| - p
    ensures s[pos + 1] != 0 && FromBytes(s[pos + 1..p]) == n
  {
    FirstOctet(s, pos, n, p);
    FourOctets(n);
    var h := s[pos..p];
    assert s[pos + 1..p] == h[1..] == ToBytes(n);
    assert s[pos + 1] == h[1..][0];
  }

  lemma LongFormReads(s: seq<byte>, pos: nat, p: nat)
    requires pos + 1 < p <= |s| && s[pos] == 0x80 + (p - pos - 1) && p - pos - 1 <= 126 && s[pos + 1] != 0
    requires 128 <= FromBytes(s[pos + 1..p]) < LIMIT && FromBytes(s[pos + 1..p]) <= |s| - p
    ensures LengthAt(s, pos, FromBytes(s[pos + 1..p]), p)
  {
    ToFrom(s[pos + 1..p]);
    assert s[pos..p] == [s[pos]] + s[pos + 1..p];
  }

  /** What reading a length yields: exactly the length that stands there, if any. */
  ghost predicate ReadsLength(s: seq<byte>, pos: nat, len: int, p: nat) {
    && pos <= p <= |s| && len < LIMIT
    && (forall n, q :: LengthAt(s, pos, n, q) ==> len == n && p == q)
    && (len >= 0 && |s| - p < LIMIT ==> LengthAt(s, pos, len, p))
  }

  /** Converts a size_t to an int. */
  function ToInt32(x: nat): int {
    (x + LIMIT) % 0x1_0000_0000 - LIMIT
  }

  lemma ToInt32Small(x: nat)
    ensures -LIMIT <= ToInt32(x) < LIMIT
    ensures x < LIMIT ==> ToInt32(x) == x
  {
    if x < LIMIT {
      ModSmall(x + LIMIT, 0x1_0000_0000);
    }
  }

  lemma NoLongForm(s: seq<byte>, pos: nat, p: nat)
    requires pos < |s| && s[pos] >= 0x80 && pos <= p <= |s|
    requires s[pos] == 0x80 || s[pos] - 0x80 > 8 || s[pos] - 0x80 > |s| - pos - 1 || s[pos + 1] == 0
    ensures ReadsLength(s, pos, -1, p)
  {
    forall n, q | LengthAt(s, pos, n, q) ensures false {
      LongForm(s, pos, n, q);
    }
  }

  /** The value read so far, wherever a result can come of it. */
  ghost predicate LongProgress(s: seq<byte>, pos: nat, q: nat, end: nat, ret: nat) {
    && pos + 1 <= q <= end <= |s| && ret < WORD
    && ((end - pos - 1 <= 4 || |s| - end < LIMIT) ==>
         ret == FromBytes(s[pos + 1..q]) && (q > pos + 1 ==> ret <= |s| - end))
  }

  lemma NextOctet(s: seq<byte>, pos: nat, q: nat, end: nat, ret: nat)
    requires LongProgress(s, pos, q, end, ret) && q < end
    ensures var r := (256 * ret) % WORD + s[q];
            && r < WORD
            && ((end - pos - 1 <= 4 || |s| - end < LIMIT) ==> r == FromBytes(s[pos + 1..q + 1]) < 0x100_0000_0000)
  {
    WordOctet(ret, s[q]);
    if end - pos - 1 <= 4 || |s| - end < LIMIT {
      var b := s[pos + 1..q];
      assert s[pos + 1..q + 1] == b + [s[q]];
      FromAppend(b, s[q]);
      if q > pos + 1 && end - pos - 1 <= 4 {
        ThreeOctets(b);
      } else if q == pos + 1 {
        assert b == [];
      }
      ModSmall(256 * ret, WORD);
    }
  }

  lemma ThreeOctets(b: seq<byte>)
    requires |b| <= 3
    ensures FromBytes(b) < 0x100_0000
  {
    FixedFrom(b);
    assert Pow256(0) == 1 && Pow256(1) == 0x100 && Pow256(2) == 0x1_0000 && Pow256(3) == 0x100_0000;
  }

  lemma WordOctet(ret: nat, x: byte)
    ensures (256 * ret) % WORD + x < WORD
  {
    var m := (256 * ret) % WORD;
    assert m == 256 * (ret - (WORD / 256) * ((256 * ret) / WORD));
  }

  /** `secp256k1_der_read_len`. */
  method ReadLen(s: seq<byte>, pos: nat) returns (len: int, p: nat)
    requires pos <= |s|
    ensures ReadsLength(s, pos, len, p)
  {
    if pos >= |s| {
      return -1, pos;
    }
    var b1 := s[pos];
    p := pos + 1;
    if b1 < 0x80 {
      ShortForm(s, pos);
      return b1, p;
    }
    var lenleft := b1 - 0x80;
    if b1 == 0xFF || b1 == 0x80 || lenleft > |s| - p || s[p] == 0 || lenleft > 8 {
      NoLongForm(s, pos, p);
      return -1, p;
    }
    ghost var end := p + lenleft;
    assert s[pos + 1..p] == [];
    var ret: nat := 0;
    while lenleft > 0
      invariant lenleft == end - p
      invariant LongProgress(s, pos, p, end, ret)
      decreases lenleft
    {
      NextOctet(s, pos, p, end, ret);
      ret := (256 * ret) % WORD + s[p];
      if (ret + lenleft) % WORD > |s| - p {
        TooLong(s, pos, p, end, ret);
        return -1, p;
      }
      FitsSoFar(s, pos, p, end, ret);
      p := p + 1;
      lenleft := lenleft - 1;
    }
    len := if ret < 128 then -1 else ToInt32(ret);
    LongEnd(s, pos, end, ret);
  }

  /** A prefix that already exceeds what is left. */
  lemma TooLong(s: seq<byte>, pos: nat, q: nat, end: nat, ret: nat)
    requires pos + 1 <= q < end <= |s| && s[pos] == 0x80 + (end - pos - 1)
    requires end - pos - 1 <= 4 || |s| - end < LIMIT ==> ret == FromBytes(s[pos + 1..q + 1]) < 0x100_0000_0000
    requires (ret + (end - q)) % WORD > |s| - q && end - pos - 1 <= 8
    ensures ReadsLength(s, pos, -1, q)
  {
    forall n: nat, p: nat | LengthAt(s, pos, n, p) ensures false {
      LongForm(s, pos, n, p);
      ModSmall(ret + (end - q), WORD);
      assert s[pos + 1..p] == s[pos + 1..q + 1] + s[q + 1..p];
      PrefixBelow(s[pos + 1..q + 1], s[q + 1..p]);
    }
  }

  lemma FitsSoFar(s: seq<byte>, pos: nat, q: nat, end: nat, ret: nat)
    requires pos + 1 <= q < end <= |s| && ret < WORD && end - pos - 1 <= 8
    requires end - pos - 1 <= 4 || |s| - end < LIMIT ==> ret == FromBytes(s[pos + 1..q + 1]) < 0x100_0000_0000
    requires (ret + (end - q)) % WORD <= |s| - q
    ensures LongProgress(s, pos, q + 1, end, ret)
  {
    if ret < 0x100_0000_0000 {
      ModSmall(ret + (end - q), WORD);
    }
  }

  lemma LongEnd(s: seq<byte>, pos: nat, end: nat, ret: nat)
    requires pos + 1 < end && LongProgress(s, pos, end, end, ret) && end - pos - 1 <= 8
    requires s[pos] == 0x80 + (end - pos - 1) && s[pos + 1] != 0
    ensures ReadsLength(s, pos, if ret < 128 then -1 else ToInt32(ret), end)
  {
    ToInt32Small(ret);
    forall n: nat, p: nat | LengthAt(s, pos, n, p) ensures ret >= 128 && ToInt32(ret) == n && p == end {
      LongForm(s, pos, n, p);
    }
    if ret >= 128 && |s| - end < LIMIT {
      LongFormReads(s, pos, end);
    }
  }

  // ---- integers ----

  /** The scalar that INTEGER contents stand for: zero for a negative number or
      one that is not below the group order. */
  function ScalarOf(c: seq<byte>): (r: nat)
    requires |c| >= 1
    ensures r < N
  {
    if c[0] < 0x80 && FromBytes(c) < N then FromBytes(c) else 0
  }

  /** The octets from pos to p are the INTEGER with contents c. */
  ghost predicate IntegerAt(s: seq<byte>, pos: nat, c: seq<byte>, p: nat) {
    pos < p <= |s| && |c| < LIMIT && s[pos..p] == Tlv(0x02, c) && Minimal(c)
  }

  lemma IntegerParts(s: seq<byte>, pos: nat, c: seq<byte>, p: nat)
    requires IntegerAt(s, pos, c, p)
    ensures s[pos] == 0x02 && pos + 1 + |c| <= p
    ensures LengthAt(s, pos + 1, |c|, p - |c|) && s[p - |c|..p] == c
  {
    Parts(s, pos, p, 0x02, LengthOctets(|c|), c);
  }

  lemma Parts(s: seq<byte>, pos: nat, p: nat, tag: byte, h: seq<byte>, c: seq<byte>)
    requires pos < p <= |s| && s[pos..p] == [tag] + h + c
    ensures p == pos + 1 + |h| + |c| && s[pos] == tag
    ensures s[pos + 1..pos + 1 + |h|] == h && s[pos + 1 + |h|..p] == c
  {
    var t := s[pos..p];
    assert |t| == 1 + |h| + |c| && t[0] == s[pos];
    forall i | 0 <= i < |h| ensures s[pos + 1 + i] == h[i] {
      assert t[1 + i] == h[i];
    }
    forall i | 0 <= i < |c| ensures s[pos + 1 + |h| + i] == c[i] {
      assert t[1 + |h| + i] == c[i];
    }
  }

  lemma IntegerFrom(s: seq<byte>, pos: nat, n: nat, q: nat)
    requires pos < |s| && s[pos] == 0x02 && LengthAt(s, pos + 1, n, q) && q + n <= |s| && Minimal(s[q..q + n])
    ensures IntegerAt(s, pos, s[q..q + n], q + n)
  {
    assert s[pos..q + n] == [s[pos]] + s[pos + 1..q] + s[q..q + n];
  }

  /** What parsing an integer yields: exactly the one that stands there, if any. */
  ghost predicate ParsesInteger(s: seq<byte>, pos: nat, ok: bool, r: nat, p: nat) {
    && pos <= p <= |s|
    && (forall c, q :: IntegerAt(s, pos, c, q) ==> ok && r == ScalarOf(c) && p == q)
  }

  /** Skips leading zeros, copies what is left to the end of 32 zero bytes and
      reduces it; a number that does not fit becomes zero. */
  method ReadScalar(s: seq<byte>, pos: nat, len: nat, negative: bool) returns (r: nat, p: nat)
    requires 1 <= len && pos + len <= |s| && negative == (s[pos] >= 0x80)
    ensures r == ScalarOf(s[pos..pos + len]) && p == pos + len
  {
    var overflow := negative;
    var rlen := len;
    p := pos;
    while rlen > 0 && s[p] == 0
      invariant p + rlen == pos + len && FromBytes(s[p..pos + len]) == FromBytes(s[pos..pos + len])
    {
      DropZero(s[p..pos + len]);
      assert s[p..pos + len][1..] == s[p + 1..pos + len];
      rlen := rlen - 1;
      p := p + 1;
    }
    Pow256Of32();
    if rlen > 32 {
      AtLeastPower(s[p..p + rlen], 32);
      overflow := true;
    }
    r := 0;
    if !overflow {
      var ra := Zeros(32 - rlen) + s[p..p + rlen];
      LeadingZeros(32 - rlen, s[p..p + rlen]);
      overflow := FromBytes(ra) >= N;
      r := FromBytes(ra) % N;
      ReducedBelow(FromBytes(ra));
    }
    if overflow {
      r := 0;
    }
    p := p + rlen;
  }

  lemma ReducedBelow(v: nat)
    ensures v < N ==> v % N == v
  {
    if v < N {
      ModSmall(v, N);
    }
  }

  lemma NoInteger(s: seq<byte>, pos: nat, p: nat)
    requires pos <= p <= |s| && (pos == |s| || s[pos] != 0x02)
    ensures ParsesInteger(s, pos, false, 0, p)
  {
    forall c, q: nat | IntegerAt(s, pos, c, q) ensures false {
      IntegerParts(s, pos, c, q);
    }
  }

  lemma BadInteger(s: seq<byte>, pos: nat, len: int, p: nat)
    requires pos < |s| && s[pos] == 0x02 && ReadsLength(s, pos + 1, len, p)
    requires len <= 0 || p + len > |s| || !Minimal(s[p..p + len])
    ensures ParsesInteger(s, pos, false, 0, p)
  {
    forall c, q: nat | IntegerAt(s, pos, c, q) ensures false {
      IntegerParts(s, pos, c, q);
    }
  }

  lemma GoodInteger(s: seq<byte>, pos: nat, len: nat, p: nat)
    requires pos < |s| && s[pos] == 0x02 && ReadsLength(s, pos + 1, len, p)
    requires 1 <= len && p + len <= |s| && Minimal(s[p..p + len])
    ensures ParsesInteger(s, pos, true, ScalarOf(s[p..p + len]), p + len)
    ensures |s| - pos < LIMIT ==> IntegerAt(s, pos, s[p..p + len], p + len)
  {
    forall c, q: nat | IntegerAt(s, pos, c, q) ensures c == s[p..p + len] && q == p + len {
      IntegerParts(s, pos, c, q);
    }
    if |s| - pos < LIMIT {
      IntegerFrom(s, pos, len, p);
    }
  }

  /** `secp256k1_der_parse_integer`. */
  method ParseInteger(s: seq<byte>, pos: nat) returns (ok: bool, r: nat, p: nat, ghost c: seq<byte>)
    requires pos <= |s|
    ensures ParsesInteger(s, pos, ok, r, p)
    ensures ok && |s| - pos < LIMIT ==> IntegerAt(s, pos, c, p) && r == ScalarOf(c)
  {
    c := [];
    if pos == |s| || s[pos] != 0x02 {
      NoInteger(s, pos, pos);
      return false, 0, pos, c;
    }
    var rlen;
    rlen, p := ReadLen(s, pos + 1);
    if rlen <= 0 || p + rlen > |s| {
      BadInteger(s, pos, rlen, p);
      return false, 0, p, c;
    }
    c := s[p..p + rlen];
    if s[p] == 0 && rlen > 1 && s[p + 1] < 0x80 {
      BadInteger(s, pos, rlen, p);
      return false, 0, p, c;
    }
    if s[p] == 0xFF && rlen > 1 && s[p + 1] >= 0x80 {
      BadInteger(s, pos, rlen, p);
      return false, 0, p, c;
    }
    GoodInteger(s, pos, rlen, p);
    r, p := ReadScalar(s, p, rlen, s[p] >= 0x80);
    ok := true;
  }

  // ---- signatures ----

  /** The shortest contents for a nonnegative number. */
  function Integer(n: nat): seq<byte> {
    var b := ToBytes(n);
    if b == [] then [0] else if b[0] >= 0x80 then [0] + b else b
  }

  /** The one encoding of a signature. */
  function Serialized(r: nat, s: nat): seq<byte> {
    Tlv(0x30, Tlv(0x02, Integer(r)) + Tlv(0x02, Integer(s)))
  }

  lemma IntegerMeans(n: nat)
    ensures Minimal(Integer(n)) && Integer(n)[0] < 0x80 && FromBytes(Integer(n)) == n
  {
    FromTo(n);
    var b := ToBytes(n);
    if b == [] {
      assert [0][..0] == [];
    } else if b[0] >= 0x80 {
      DropZero([0] + b);
      assert ([0] + b)[1..] == b;
    }
  }

  /** Minimal contents without a sign bit are the shortest ones for their number. */
  lemma IntegerUnique(c: seq<byte>)
    requires Minimal(c) && c[0] < 0x80
    ensures c == Integer(FromBytes(c))
  {
    if c[0] != 0 {
      ToFrom(c);
    } else {
      DropZero(c);
      ToFrom(c[1..]);
      assert c == [0] + c[1..];
    }
  }

  lemma IntegerSize(n: nat)
    requires n < N
    ensures 1 <= |Integer(n)| <= 33
  {
    FromTo(n);
    Pow256Of32();
    if |ToBytes(n)| > 32 {
      AtLeastPower(ToBytes(n), 32);
    }
  }

  lemma SerializedSize(r: nat, s: nat)
    requires r < N && s < N
    ensures Serialized(r, s) == [0x30, 4 + |Integer(r)| + |Integer(s)|] + ([0x02, |Integer(r)|] + Integer(r))
                              + ([0x02, |Integer(s)|] + Integer(s))
    ensures |Serialized(r, s)| == 6 + |Integer(r)| + |Integer(s)| <= 72
  {
    IntegerSize(r);
    IntegerSize(s);
    var cr, cs := Integer(r), Integer(s);
    assert Tlv(0x02, cr) == [0x02, |cr|] + cr && Tlv(0x02, cs) == [0x02, |cs|] + cs;
    var body := Tlv(0x02, cr) + Tlv(0x02, cs);
    assert Tlv(0x30, body) == [0x30, |body|] + body;
  }

  /** The encoding is accepted and yields what was encoded. */
  lemma SerializedDenotes(r: nat, s: nat)
    requires r < N && s < N
    ensures Denotes(Serialized(r, s), Integer(r), Integer(s))
    ensures ScalarOf(Integer(r)) == r && ScalarOf(Integer(s)) == s
  {
    IntegerMeans(r);
    IntegerMeans(s);
    SerializedSize(r, s);
  }

  /** Nothing else is accepted with nonzero numbers. */
  lemma OnlySerialized(sig: seq<byte>, cr: seq<byte>, cs: seq<byte>)
    requires Denotes(sig, cr, cs) && ScalarOf(cr) != 0 && ScalarOf(cs) != 0
    ensures sig == Serialized(ScalarOf(cr), ScalarOf(cs))
  {
    IntegerUnique(cr);
    IntegerUnique(cs);
  }

  /** Where the parts of an encoding stand. */
  lemma DenotesParts(sig: seq<byte>, cr: seq<byte>, cs: seq<byte>)
      returns (q: nat, m: nat)
    requires Denotes(sig, cr, cs)
    ensures sig[0] == 0x30 && q <= m <= |sig| && LengthAt(sig, 1, |sig| - q, q)
    ensures IntegerAt(sig, q, cr, m) && IntegerAt(sig, m, cs, |sig|)
  {
    var tr, ts := Tlv(0x02, cr), Tlv(0x02, cs);
    var h := LengthOctets(|tr + ts|);
    assert sig == [0x30] + h + (tr + ts);
    q := 1 + |h|;
    m := q + |tr|;
    Parts(sig, 0, |sig|, 0x30, h, tr + ts);
    assert sig[0..|sig|] == sig;
    Halves(sig, q, tr, ts);
  }

  lemma Halves(sig: seq<byte>, q: nat, tr: seq<byte>, ts: seq<byte>)
    requires q <= |sig| && sig[q..|sig|] == tr + ts
    ensures |sig| == q + |tr| + |ts| && sig[q..q + |tr|] == tr && sig[q + |tr|..|sig|] == ts
  {
    var b := sig[q..|sig|];
    assert b[..|tr|] == tr && b[|tr|..] == ts;
    assert sig[q..q + |tr|] == b[..|tr|] && sig[q + |tr|..|sig|] == b[|tr|..];
  }

  lemma DenotesFrom(sig: seq<byte>, q: nat, m: nat, cr: seq<byte>, cs: seq<byte>)
    requires sig != [] && sig[0] == 0x30 && q <= m <= |sig| && LengthAt(sig, 1, |sig| - q, q)
    requires IntegerAt(sig, q, cr, m) && IntegerAt(sig, m, cs, |sig|)
    ensures Denotes(sig, cr, cs)
  {
    Joined(sig, q, m, LengthOctets(|sig| - q), Tlv(0x02, cr), Tlv(0x02, cs));
  }

  lemma Joined(sig: seq<byte>, q: nat, m: nat, h: seq<byte>, tr: seq<byte>, ts: seq<byte>)
    requires 1 <= q <= m <= |sig| && sig[0] == 0x30
    requires sig[1..q] == h && sig[q..m] == tr && sig[m..|sig|] == ts
    ensures sig == [0x30] + h + (tr + ts)
  {
    assert sig == [sig[0]] + sig[1..q] + (sig[q..m] + sig[m..|sig|]);
  }
}
