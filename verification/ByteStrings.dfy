/**
 Big-endian byte strings and the numbers they stand for.
 */
module ByteStrings {
  import opened Arith

  type byte = x: int | 0 <= x < 256

  function Pow256(k: nat): (r: nat)
    ensures r > 0
  {
    if k == 0 then 1 else 256 * Pow256(k - 1)
  }

  /** The number that the bytes stand for, most significant byte first. */
  function FromBytes(b: seq<byte>): nat {
    if b == [] then 0 else 256 * FromBytes(b[..|b| - 1]) + b[|b| - 1]
  }

  /** The last k bytes of a number, what `get_b32` writes for k = 32. */
  function Fixed(n: nat, k: nat): (b: seq<byte>)
    ensures |b| == k
  {
    if k == 0 then [] else Fixed(n / 256, k - 1) + [n % 256]
  }

  /** The bytes of n without leading zeros. */
  function ToBytes(n: nat): seq<byte> {
    if n == 0 then [] else ToBytes(n / 256) + [n % 256]
  }

  function Zeros(k: nat): (z: seq<byte>)
    ensures |z| == k && forall i :: 0 <= i < k ==> z[i] == 0
  {
    seq(k, _ => 0)
  }

  lemma FromAppend(b: seq<byte>, x: byte)
    ensures FromBytes(b + [x]) == 256 * FromBytes(b) + x
  {
    assert (b + [x])[..|b|] == b;
  }

  lemma {:induction false} FromFixed(n: nat, k: nat)
    requires n < Pow256(k)
    ensures FromBytes(Fixed(n, k)) == n
    decreases k
  {
    if k > 0 {
      FromFixed(n / 256, k - 1);
      FromAppend(Fixed(n / 256, k - 1), n % 256);
    }
  }

  lemma {:induction false} FixedFrom(b: seq<byte>)
    ensures Fixed(FromBytes(b), |b|) == b && FromBytes(b) < Pow256(|b|)
    decreases |b|
  {
    if b != [] {
      FixedFrom(b[..|b| - 1]);
    }
  }

  lemma {:induction false} FromTo(n: nat)
    ensures FromBytes(ToBytes(n)) == n
    ensures n > 0 ==> |ToBytes(n)| > 0 && ToBytes(n)[0] != 0
    decreases n
  {
    if n > 0 {
      FromTo(n / 256);
      FromAppend(ToBytes(n / 256), n % 256);
    }
  }

  /** A leading byte that is not zero makes the string the shortest one. */
  lemma {:induction false} ToFrom(b: seq<byte>)
    requires b == [] || b[0] != 0
    ensures ToBytes(FromBytes(b)) == b
    ensures b != [] ==> FromBytes(b) > 0
    decreases |b|
  {
    if b != [] {
      var c := b[..|b| - 1];
      ToFrom(c);
      assert b == c + [b[|b| - 1]];
    }
  }

  lemma {:induction false} FromConcat(b: seq<byte>, c: seq<byte>)
    ensures FromBytes(b + c) == FromBytes(b) * Pow256(|c|) + FromBytes(c)
    decreases |c|
  {
    if c == [] {
      assert b + c == b;
    } else {
      var d, x := c[..|c| - 1], c[|c| - 1];
      FromConcat(b, d);
      assert b + c == (b + d) + [x];
      FromAppend(b + d, x);
      Rearranged(FromBytes(b), Pow256(|d|));
    }
  }

  lemma Rearranged(x: int, p: int)
    ensures 256 * (x * p) == x * (256 * p)
  {
  }

  lemma {:induction false} ZerosValue(k: nat)
    ensures FromBytes(Zeros(k)) == 0
  {
    if k > 0 {
      ZerosValue(k - 1);
      assert Zeros(k)[..k - 1] == Zeros(k - 1);
    }
  }

  /** Leading zeros do not count. */
  lemma LeadingZeros(k: nat, b: seq<byte>)
    ensures FromBytes(Zeros(k) + b) == FromBytes(b)
  {
    FromConcat(Zeros(k), b);
    ZerosValue(k);
  }

  lemma DropZero(b: seq<byte>)
    requires b != [] && b[0] == 0
    ensures FromBytes(b[1..]) == FromBytes(b)
  {
    assert b == Zeros(1) + b[1..];
    LeadingZeros(1, b[1..]);
  }

  /** A string of more bytes with a nonzero first one stands for a large number. */
  lemma {:induction false} AtLeastPower(b: seq<byte>, k: nat)
    requires k < |b| && b[0] != 0
    ensures FromBytes(b) >= Pow256(k)
    decreases |b|
  {
    if |b| == 1 {
      assert b[..0] == [];
    } else if k > 0 {
      AtLeastPower(b[..|b| - 1], k - 1);
    } else {
      ToFrom(b);
    }
  }

  /** Reading on only makes the number larger. */
  lemma PrefixBelow(b: seq<byte>, c: seq<byte>)
    ensures FromBytes(b) <= FromBytes(b + c)
  {
    FromConcat(b, c);
    MulMono(FromBytes(b), FromBytes(b), 1, Pow256(|c|));
  }

  lemma {:induction false} Pow256Add(a: nat, b: nat)
    ensures Pow256(a + b) == Pow256(a) * Pow256(b)
    decreases b
  {
    if b > 0 {
      Pow256Add(a, b - 1);
      assert Pow256(a + b) == 256 * Pow256(a + (b - 1));
      Rearranged(Pow256(a), Pow256(b - 1));
    }
  }

  lemma Pow256Of32()
    ensures Pow256(32) == 0x1_00000000_00000000_00000000_00000000_00000000_00000000_00000000_00000000
  {
    Pow256Square(2, 0x1_0000, 4, 0x1_0000_0000);
    Pow256Square(4, 0x1_0000_0000, 8, 0x1_00000000_00000000);
    Pow256Square(8, 0x1_00000000_00000000, 16, 0x1_00000000_00000000_00000000_00000000);
    var v := 0x1_00000000_00000000_00000000_00000000_00000000_00000000_00000000_00000000;
    Pow256Square(16, 0x1_00000000_00000000_00000000_00000000, 32, v);
  }

  lemma Pow256Square(k: nat, v: nat, k': nat, v': nat)
    requires Pow256(k) == v && k' == 2 * k && v' == v * v
    ensures Pow256(k') == v'
  {
    Pow256Add(k, k);
  }

  /** `memcpy(dst + at, src, |src|)`. */
  method CopyInto(dst: array<byte>, at: nat, src: seq<byte>)
    requires at + |src| <= dst.Length
    modifies dst
    ensures dst[..] == old(dst[..at]) + src + old(dst[at + |src|..])
  {
    var i := 0;
    while i < |src|
      invariant i <= |src|
      invariant dst[..at] == old(dst[..at]) && dst[at..at + i] == src[..i]
      invariant dst[at + |src|..] == old(dst[at + |src|..])
    {
      dst[at + i] := src[i];
      assert src[..i + 1] == src[..i] + [src[i]];
      i := i + 1;
    }
    assert dst[..] == dst[..at] + dst[at..at + |src|] + dst[at + |src|..];
  }
}
