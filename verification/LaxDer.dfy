/**
 `ecdsa_signature_parse_der_lax`, which reads DER with various violations, and
 its relation to the strict parser.
 */
module LaxDer {
  import opened Arith
  import opened ByteStrings
  import opened Scalars
  import opened Wrappers
  import opened Der

  /** A length and where it ends. */
  datatype Length = Length(value: nat, end: nat)

  /** The lax reading of a length: any long form that is there, leading zeros
      included, whose remaining octets are fewer than eight. */
  function LaxLength(s: seq<byte>, pos: nat): (r: Option<Length>)
    ensures r.Some? ==> pos < r.value.end <= |s|
  {
    if pos >= |s| then None
    else if s[pos] < 0x80 then Some(Length(s[pos], pos + 1))
    else
      var end := pos + 1 + (s[pos] - 0x80);
      if end > |s| || FromBytes(s[pos + 1..end]) >= Pow256(7) then None
      else Some(Length(FromBytes(s[pos + 1..end]), end))
  }

  /** The contents of an integer: where they start and stop. */
  datatype Span = Span(start: nat, end: nat)

  function LaxInteger(s: seq<byte>, pos: nat): (r: Option<Span>)
    ensures r.Some? ==> r.value.start <= r.value.end <= |s|
  {
    if pos >= |s| || s[pos] != 0x02 then None
    else
      match LaxLength(s, pos + 1)
      case None => None
      case Some(l) => if l.value > |s| - l.end then None else Some(Span(l.end, l.end + l.value))
  }

  /** The sequence length is skipped, whatever it says. */
  function AfterHeader(s: seq<byte>): (r: Option<nat>)
    ensures r.Some? ==> r.value <= |s|
  {
    if |s| < 2 || s[0] != 0x30 then None
    else if s[1] < 0x80 then Some(2)
    else if 2 + (s[1] - 0x80) > |s| then None
    else Some(2 + (s[1] - 0x80))
  }

  datatype Pair = Pair(r: nat, s: nat)

  /** Two unsigned numbers, or zeros where one is too large. */
  function Compact(x: nat, y: nat): Pair {
    if x < N && y < N then Pair(x, y) else Pair(0, 0)
  }

  /** The pair that the lax parser reads, if it accepts. */
  function LaxParse(s: seq<byte>): Option<Pair> {
    match AfterHeader(s)
    case None => None
    case Some(p) =>
      match LaxInteger(s, p)
      case None => None
      case Some(cr) =>
        match LaxInteger(s, cr.end)
        case None => None
        case Some(cs) => Some(Compact(FromBytes(s[cr.start..cr.end]), FromBytes(s[cs.start..cs.end])))
  }

  // ---- the language ----

  /** h is a length that may say anything: one octet below 0x80, or one that counts
      the octets after it. */
  predicate AnyLength(h: seq<byte>) {
    |h| >= 1 && |h| == 1 + (if h[0] < 0x80 then 0 else h[0] - 0x80)
  }

  /** h is an encoding of the length n: n itself, or the number of octets that
      follow, which are n with any leading zeros, of no more than seven other octets. */
  predicate LengthOf(h: seq<byte>, n: nat) {
    || (n < 128 && h == [n])
    || (1 <= |h| <= 128 && h[0] == 0x80 + (|h| - 1) && FromBytes(h[1..]) == n < 0x100_0000_0000_0000)
  }

  /** An input cut at its elements: the lengths of the sequence and of the integers,
      the contents of these, and whatever follows. */
  datatype Parts = Parts(h: seq<byte>, hr: seq<byte>, cr: seq<byte>, hs: seq<byte>, cs: seq<byte>, rest: seq<byte>)

  predicate WellFormed(p: Parts) {
    AnyLength(p.h) && LengthOf(p.hr, |p.cr|) && LengthOf(p.hs, |p.cs|)
  }

  function Integer(h: seq<byte>, c: seq<byte>): seq<byte> {
    [0x02] + h + c
  }

  function Joined(p: Parts): seq<byte> {
    [0x30] + p.h + Integer(p.hr, p.cr) + Integer(p.hs, p.cs) + p.rest
  }

  /** What the contents stand for: two unsigned numbers below the order, or zeros. */
  function Numbers(p: Parts): Pair {
    if FromBytes(p.cr) < N && FromBytes(p.cs) < N then Pair(FromBytes(p.cr), FromBytes(p.cs)) else Pair(0, 0)
  }

  lemma ReadsLength(s: seq<byte>, pos: nat, h: seq<byte>, n: nat)
    requires LengthOf(h, n) && pos + |h| <= |s| && s[pos..pos + |h|] == h
    ensures LaxLength(s, pos) == Some(Length(n, pos + |h|))
  {
    assert s[pos] == h[0];
    if s[pos] >= 0x80 {
      assert s[pos + 1..pos + |h|] == h[1..];
      SevenIsSmall();
    }
  }

  lemma LengthRead(s: seq<byte>, pos: nat)
    requires pos <= |s| && LaxLength(s, pos).Some?
    ensures var l := LaxLength(s, pos).value; LengthOf(s[pos..l.end], l.value)
  {
    var h := s[pos..LaxLength(s, pos).value.end];
    if s[pos] >= 0x80 {
      assert h[1..] == s[pos + 1..LaxLength(s, pos).value.end];
      SevenIsSmall();
    }
  }

  lemma Inside(s: seq<byte>, pos: nat, e: nat, a: nat, b: nat)
    requires pos <= e <= |s| && a <= b <= e - pos
    ensures s[pos..e][a..b] == s[pos + a..pos + b]
  {
    var x, y := s[pos..e][a..b], s[pos + a..pos + b];
    assert |x| == |y| && forall i :: 0 <= i < |x| ==> x[i] == y[i];
  }

  lemma IntegerSlices(h: seq<byte>, c: seq<byte>)
    ensures var i := Integer(h, c); |i| == 1 + |h| + |c| && i[1..1 + |h|] == h && i[1 + |h|..] == c
  {
  }

  lemma ReadsInteger(s: seq<byte>, pos: nat, h: seq<byte>, c: seq<byte>)
    requires LengthOf(h, |c|) && pos + |Integer(h, c)| <= |s| && s[pos..pos + |Integer(h, c)|] == Integer(h, c)
    ensures var x := Span(pos + 1 + |h|, pos + |Integer(h, c)|);
            LaxInteger(s, pos) == Some(x) && s[x.start..x.end] == c
  {
    var i := Integer(h, c);
    var k := 1 + |h|;
    assert s[pos] == i[0];
    IntegerSlices(h, c);
    Inside(s, pos, pos + |i|, 1, k);
    Inside(s, pos, pos + |i|, k, |i|);
    assert i[k..|i|] == i[k..];
    ReadsLength(s, pos + 1, h, |c|);
  }

  lemma IntegerRead(s: seq<byte>, pos: nat) returns (h: seq<byte>, c: seq<byte>)
    requires pos <= |s| && LaxInteger(s, pos).Some?
    ensures LengthOf(h, |c|) && pos + |Integer(h, c)| == LaxInteger(s, pos).value.end
    ensures s[pos..pos + |Integer(h, c)|] == Integer(h, c)
  {
    var x := LaxInteger(s, pos).value;
    LengthRead(s, pos + 1);
    h, c := s[pos + 1..x.start], s[x.start..x.end];
    assert s[pos..x.end] == [0x02] + h + c;
  }

  lemma Slice(s: seq<byte>, a: seq<byte>, b: seq<byte>, c: seq<byte>)
    requires s == a + b + c
    ensures |a| + |b| <= |s| && s[|a|..|a| + |b|] == b
  {
  }

  /** Every input of the language is accepted with the numbers of its parts. */
  lemma Reads(p: Parts)
    requires WellFormed(p)
    ensures LaxParse(Joined(p)) == Some(Numbers(p))
  {
    var s, r := Joined(p), Integer(p.hs, p.cs) + p.rest;
    var i, j := Integer(p.hr, p.cr), Integer(p.hs, p.cs);
    var head := [0x30] + p.h;
    assert s == head + i + (j + p.rest);
    assert s == (head + i) + j + p.rest;
    assert s[1] == p.h[0];
    Slice(s, head, i, j + p.rest);
    Slice(s, head + i, j, p.rest);
    ReadsInteger(s, |head|, p.hr, p.cr);
    ReadsInteger(s, |head + i|, p.hs, p.cs);
  }

  /** Every accepted input is in the language. */
  lemma Accepted(s: seq<byte>) returns (p: Parts)
    requires LaxParse(s).Some?
    ensures WellFormed(p) && s == Joined(p)
  {
    var q := AfterHeader(s).value;
    var hr, cr := IntegerRead(s, q);
    var m := q + |Integer(hr, cr)|;
    var hs, cs := IntegerRead(s, m);
    var e := m + |Integer(hs, cs)|;
    p := Parts(s[1..q], hr, cr, hs, cs, s[e..]);
    HeaderRead(s);
    Rejoined(s, p, q, m, e);
  }

  lemma HeaderRead(s: seq<byte>)
    requires AfterHeader(s).Some?
    ensures s[0] == 0x30 && 2 <= AfterHeader(s).value && AnyLength(s[1..AfterHeader(s).value])
  {
  }

  lemma Rejoined(s: seq<byte>, p: Parts, q: nat, m: nat, e: nat)
    requires 1 <= q <= m <= e <= |s| && s[0] == 0x30 && p.h == s[1..q] && p.rest == s[e..]
    requires Integer(p.hr, p.cr) == s[q..m] && Integer(p.hs, p.cs) == s[m..e]
    ensures s == Joined(p)
  {
    Cut(s, q, m, e);
  }

  lemma Cut(s: seq<byte>, q: nat, m: nat, e: nat)
    requires 1 <= q <= m <= e <= |s|
    ensures s == [s[0]] + s[1..q] + s[q..m] + s[m..e] + s[e..]
  {
    assert s[..q] == [s[0]] + s[1..q];
    assert s[..m] == s[..q] + s[q..m];
    assert s[..e] == s[..m] + s[m..e];
    assert s == s[..e] + s[e..];
  }

  // ---- the parser ----

  /** Skips the zero octets that start a long form. */
  method SkipZeros(input: seq<byte>, at: nat, count: nat) returns (pos: nat, left: nat)
    requires at + count <= |input|
    ensures at <= pos && pos + left == at + count
    ensures FromBytes(input[pos..at + count]) == FromBytes(input[at..at + count])
    ensures left > 0 ==> input[pos] != 0
  {
    pos, left := at, count;
    while left > 0 && input[pos] == 0
      invariant at <= pos && pos + left == at + count
      invariant FromBytes(input[pos..at + count]) == FromBytes(input[at..at + count])
    {
      DropZero(input[pos..at + count]);
      assert input[pos..at + count][1..] == input[pos + 1..at + count];
      pos := pos + 1;
      left := left - 1;
    }
  }

  lemma Width(b: seq<byte>, k: nat)
    requires |b| > 0 ==> b[0] != 0
    ensures FromBytes(b) < Pow256(k) <==> |b| <= k
  {
    FixedFrom(b);
    if |b| > k {
      AtLeastPower(b, k);
    } else {
      Pow256Mono(|b|, k);
    }
  }

  lemma {:induction false} Pow256Mono(a: nat, b: nat)
    requires a <= b
    ensures Pow256(a) <= Pow256(b)
    decreases b
  {
    if a < b {
      Pow256Mono(a, b - 1);
    }
  }

  lemma SevenIsSmall()
    ensures Pow256(7) == 0x100_0000_0000_0000
  {
    Pow256Add(3, 4);
    assert Pow256(3) == 0x100_0000 && Pow256(4) == 0x1_0000_0000;
  }

  lemma OneMore(b: seq<byte>, x: byte)
    requires |b| < 7
    ensures (256 * FromBytes(b)) % WORD + x == FromBytes(b + [x])
  {
    FromAppend(b, x);
    FixedFrom(b);
    Pow256Mono(|b|, 7);
    SevenIsSmall();
    ModSmall(256 * FromBytes(b), WORD);
  }

  /** `rlen = (rlen << 8) + input[pos]` over the octets that are left. */
  method ReadOctets(input: seq<byte>, at: nat, count: nat) returns (len: nat)
    requires at + count <= |input| && count < 8
    ensures len == FromBytes(input[at..at + count])
  {
    var pos := at;
    len := 0;
    while pos < at + count
      invariant at <= pos <= at + count && len == FromBytes(input[at..pos])
    {
      assert input[at..pos + 1] == input[at..pos] + [input[pos]];
      OneMore(input[at..pos], input[pos]);
      len := (256 * len) % WORD + input[pos];
      pos := pos + 1;
    }
  }

  /** The length of an integer, as the parser reads it twice. */
  method ReadLaxLength(input: seq<byte>, at: nat) returns (ok: bool, len: nat, pos: nat)
    requires at <= |input|
    ensures ok == LaxLength(input, at).Some?
    ensures ok ==> LaxLength(input, at) == Some(Length(len, pos))
  {
    ok, len, pos := false, 0, at;
    if pos == |input| {
      return;
    }
    var lenbyte := input[pos];
    pos := pos + 1;
    if lenbyte < 0x80 {
      return true, lenbyte, pos;
    }
    lenbyte := lenbyte - 0x80;
    if pos + lenbyte > |input| {
      return;
    }
    var end := pos + lenbyte;
    var left;
    pos, left := SkipZeros(input, pos, lenbyte);
    Width(input[pos..end], 7);
    if left >= 8 {
      return;
    }
    len := ReadOctets(input, pos, left);
    ok := true;
    pos := end;
  }

  /** Tag, length and bounds of one integer. */
  method ReadLaxInteger(input: seq<byte>, at: nat) returns (ok: bool, start: nat, len: nat)
    requires at <= |input|
    ensures ok == LaxInteger(input, at).Some?
    ensures ok ==> LaxInteger(input, at) == Some(Span(start, start + len))
  {
    ok, start, len := false, 0, 0;
    if at == |input| || input[at] != 0x02 {
      return;
    }
    ok, len, start := ReadLaxLength(input, at + 1);
    if ok && len > |input| - start {
      ok := false;
    }
  }

  /** Drops leading zeros and copies the rest to the end of its half of tmpsig. */
  method CopyScalar(input: seq<byte>, at: nat, count: nat) returns (overflow: bool, half: seq<byte>)
    requires at + count <= |input|
    ensures |half| == 32
    ensures overflow <==> FromBytes(input[at..at + count]) >= Pow256(32)
    ensures !overflow ==> FromBytes(half) == FromBytes(input[at..at + count])
  {
    var pos, len := SkipZeros(input, at, count);
    Width(input[pos..pos + len], 32);
    if len > 32 {
      return true, Zeros(32);
    }
    LeadingZeros(32 - len, input[pos..pos + len]);
    return false, Zeros(32 - len) + input[pos..pos + len];
  }

  /** `secp256k1_ecdsa_signature_parse_compact`: both halves below the order, or zeros. */
  method ParseCompact(r: seq<byte>, s: seq<byte>) returns (ok: bool, sig: Pair)
    requires |r| == 32 && |s| == 32
    ensures sig == Compact(FromBytes(r), FromBytes(s))
    ensures ok <==> FromBytes(r) < N && FromBytes(s) < N
  {
    ok := true;
    if FromBytes(r) >= N {
      ok := false;
    }
    if FromBytes(s) >= N {
      ok := false;
    }
    sig := if ok then Pair(FromBytes(r), FromBytes(s)) else Pair(0, 0);
  }

  lemma OrderFits(v: nat)
    ensures v >= Pow256(32) ==> v >= N
  {
    Pow256Of32();
  }

  /** The lax parser. It accepts exactly the language above, and the parts of an
      accepted input give its numbers. The signature is set even where it fails. */
  method ParseLax(input: seq<byte>) returns (ok: bool, sig: Pair)
    ensures ok <==> exists p: Parts :: WellFormed(p) && input == Joined(p)
    ensures forall p: Parts :: WellFormed(p) && input == Joined(p) ==> sig == Numbers(p)
    ensures !ok ==> sig == Pair(0, 0)
    ensures ok == LaxParse(input).Some?
    ensures sig == if ok then LaxParse(input).value else Pair(0, 0)
  {
    ok, sig := ParseParts(input);
    forall p: Parts | WellFormed(p) && input == Joined(p) ensures ok && sig == Numbers(p) {
      Reads(p);
    }
    if ok {
      ghost var p := Accepted(input);
    }
  }

  /** The tag and the length of the sequence. */
  method SkipHeader(input: seq<byte>) returns (ok: bool, pos: nat)
    ensures ok == AfterHeader(input).Some?
    ensures ok ==> AfterHeader(input) == Some(pos)
  {
    ok, pos := false, 0;
    if |input| == 0 || input[0] != 0x30 {
      return;
    }
    if |input| == 1 {
      return;
    }
    pos := 2;
    if input[1] >= 0x80 {
      if pos + (input[1] - 0x80) > |input| {
        return;
      }
      pos := pos + (input[1] - 0x80);
    }
    ok := true;
  }

  method ParseParts(input: seq<byte>) returns (ok: bool, sig: Pair)
    ensures ok == LaxParse(input).Some?
    ensures sig == if ok then LaxParse(input).value else Pair(0, 0)
  {
    var pos, rpos, rlen, spos, slen;
    sig := Pair(0, 0);
    ok, pos := SkipHeader(input);
    if !ok {
      return;
    }
    ok, rpos, rlen := ReadLaxInteger(input, pos);
    if !ok {
      return;
    }
    ok, spos, slen := ReadLaxInteger(input, rpos + rlen);
    if !ok {
      return;
    }
    sig := Finish(input, rpos, rlen, spos, slen);
  }

  method Finish(input: seq<byte>, rpos: nat, rlen: nat, spos: nat, slen: nat) returns (sig: Pair)
    requires rpos + rlen <= |input| && spos + slen <= |input|
    ensures sig == Compact(FromBytes(input[rpos..rpos + rlen]), FromBytes(input[spos..spos + slen]))
  {
    OrderFits(FromBytes(input[rpos..rpos + rlen]));
    OrderFits(FromBytes(input[spos..spos + slen]));
    var overflow, r := CopyScalar(input, rpos, rlen);
    var over, s := CopyScalar(input, spos, slen);
    overflow := overflow || over;
    var ok;
    if !overflow {
      ok, sig := ParseCompact(r, s);
      overflow := !ok;
    }
    if overflow {
      ZerosValue(32);
      ok, sig := ParseCompact(Zeros(32), Zeros(32));
    }
  }

  // ---- relation to the strict parser ----

  lemma LaxLengthExtends(s: seq<byte>, t: seq<byte>, pos: nat, n: nat, p: nat)
    requires LengthAt(s, pos, n, p)
    ensures LaxLength(s + t, pos) == Some(Length(n, p))
  {
    if pos < |s| && s[pos] < 0x80 {
      ShortForm(s, pos);
    } else {
      FirstOctet(s, pos, n, p);
      LongForm(s, pos, n, p);
      assert (s + t)[pos + 1..p] == s[pos + 1..p];
      SevenIsSmall();
    }
  }

  lemma LaxIntegerExtends(s: seq<byte>, t: seq<byte>, pos: nat, c: seq<byte>, p: nat) returns (x: Span)
    requires IntegerAt(s, pos, c, p)
    ensures LaxInteger(s + t, pos) == Some(x) && x.start <= x.end == p <= |s + t| && (s + t)[x.start..x.end] == c
  {
    IntegerParts(s, pos, c, p);
    x := Span(p - |c|, p);
    LaxLengthExtends(s, t, pos + 1, |c|, x.start);
    assert (s + t)[x.start..p] == s[x.start..p];
  }

  lemma LaxParseWhen(s: seq<byte>, p: nat, x: Span, y: Span, c: seq<byte>, d: seq<byte>)
    requires x.start <= x.end <= |s| && y.start <= y.end <= |s|
    requires AfterHeader(s) == Some(p) && LaxInteger(s, p) == Some(x) && LaxInteger(s, x.end) == Some(y)
    requires s[x.start..x.end] == c && s[y.start..y.end] == d
    ensures LaxParse(s) == Some(Compact(FromBytes(c), FromBytes(d)))
  {
  }

  /** The lax parser accepts what the strict one accepts, whatever follows it, and
      reads the contents as unsigned numbers. */
  lemma LaxExtendsStrict(sig: seq<byte>, cr: seq<byte>, cs: seq<byte>, t: seq<byte>)
    requires Denotes(sig, cr, cs)
    ensures LaxParse(sig + t) == Some(Compact(FromBytes(cr), FromBytes(cs)))
  {
    var q, m := DenotesParts(sig, cr, cs);
    HeaderEnds(sig, t, q);
    var x := LaxIntegerExtends(sig, t, q, cr, m);
    var y := LaxIntegerExtends(sig, t, m, cs, |sig|);
    LaxParseWhen(sig + t, q, x, y, cr, cs);
  }

  lemma HeaderEnds(sig: seq<byte>, t: seq<byte>, q: nat)
    requires sig != [] && sig[0] == 0x30 && q <= |sig| && LengthAt(sig, 1, |sig| - q, q)
    ensures AfterHeader(sig + t) == Some(q)
  {
    FirstOctet(sig, 1, |sig| - q, q);
    if sig[1] < 0x80 {
      ShortForm(sig, 1);
    } else {
      LongForm(sig, 1, |sig| - q, q);
    }
  }

  /** What the strict parser yields for the two contents. */
  function Strict(cr: seq<byte>, cs: seq<byte>): Pair
    requires |cr| >= 1 && |cs| >= 1
  {
    Pair(ScalarOf(cr), ScalarOf(cs))
  }

  /** Two nonzero scalars read strictly are read alike, with anything appended. */
  lemma LaxKeepsSignature(sig: seq<byte>, cr: seq<byte>, cs: seq<byte>, t: seq<byte>)
    requires Denotes(sig, cr, cs) && ScalarOf(cr) != 0 && ScalarOf(cs) != 0
    ensures LaxParse(sig + t) == Some(Strict(cr, cs))
  {
    LaxExtendsStrict(sig, cr, cs, t);
  }

  lemma SignBitCounts(c: seq<byte>)
    requires |c| >= 1 && c[0] >= 0x80
    ensures FromBytes(c) > 0
  {
    ToFrom(c);
  }

  /** As an integer, c is negative, zero or not below the order. */
  predicate OutOfRange(c: seq<byte>)
    requires |c| >= 1
  {
    c[0] >= 0x80 || FromBytes(c) == 0 || FromBytes(c) >= N
  }

  /** Exactly when the two parsers agree on an input that the strict one accepts: as
      unsigned numbers both are below the order and neither has the sign bit, or one
      is not below it and neither is a number from 1 to n - 1. */
  lemma LaxAgrees(sig: seq<byte>, cr: seq<byte>, cs: seq<byte>, t: seq<byte>)
    requires Denotes(sig, cr, cs)
    ensures LaxParse(sig + t) == Some(Strict(cr, cs))
       <==> if FromBytes(cr) < N && FromBytes(cs) < N then cr[0] < 0x80 && cs[0] < 0x80
            else OutOfRange(cr) && OutOfRange(cs)
  {
    LaxExtendsStrict(sig, cr, cs, t);
    if cr[0] >= 0x80 {
      SignBitCounts(cr);
    }
    if cs[0] >= 0x80 {
      SignBitCounts(cs);
    }
  }

  /** They disagree: a negative r is zero to the strict parser and 128 to the lax one. */
  lemma LaxDiffers()
    ensures var sig := [0x30, 0x06, 0x02, 0x01, 0x80, 0x02, 0x01, 0x01];
            && Denotes(sig, [0x80], [0x01]) && Strict([0x80], [0x01]) == Pair(0, 1)
            && LaxParse(sig) == Some(Pair(128, 1))
  {
    var sig: seq<byte> := [0x30, 0x06, 0x02, 0x01, 0x80, 0x02, 0x01, 0x01];
    var cr: seq<byte>, cs: seq<byte> := [0x80], [0x01];
    assert Tlv(0x02, cr) == [0x02, 0x01, 0x80] && Tlv(0x02, cs) == [0x02, 0x01, 0x01];
    assert Tlv(0x30, Tlv(0x02, cr) + Tlv(0x02, cs)) == sig;
    LaxExtendsStrict(sig, cr, cs, []);
    assert sig + [] == sig;
    OneByte(0x80);
    OneByte(0x01);
  }

  lemma OneByte(x: byte)
    ensures FromBytes([x]) == x
  {
    assert [x][..0] == [];
  }
}
