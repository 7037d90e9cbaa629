/**
 Powers of two and bit fields of natural numbers: the integer facts that the
 scalar recodings and the byte encodings rest on.
 */
module Arith {

  function Pow2(k: nat): (r: nat)
    ensures r > 0
  {
    if k == 0 then 1 else 2 * Pow2(k - 1)
  }

  /** `s >> k`. */
  function Shr(s: nat, k: nat): nat
    decreases k
  {
    if k == 0 then s else Shr(s / 2, k - 1)
  }

  /** The low k bits of s, `s & ((1 << k) - 1)`. */
  function Low(s: nat, k: nat): (r: nat)
    ensures r < Pow2(k)
    decreases k
  {
    if k == 0 then 0 else s % 2 + 2 * Low(s / 2, k - 1)
  }

  /** `count` bits of `s` starting at bit `offset`. */
  function GetBits(s: nat, offset: nat, count: nat): (r: nat)
    ensures r < Pow2(count)
  {
    Low(Shr(s, offset), count)
  }

  lemma MulMono(a: nat, b: nat, c: nat, d: nat)
    requires a <= b && c <= d
    ensures 0 <= a * c <= b * d
  {
    assert a * c <= b * c by { assert (b - a) * c >= 0; }
    assert b * c <= b * d by { assert b * (d - c) >= 0; }
  }

  /** A nonzero multiple of d is at least d away from zero. */
  lemma MulAway(k: int, d: int)
    requires d > 0
    ensures k >= 1 ==> k * d >= d
    ensures k <= -1 ==> k * d <= -d
    ensures k > 0 <==> k * d > 0
    ensures k < 0 <==> k * d < 0
  {
    if k >= 1 {
      assert (k - 1) * d >= 0;
    } else if k <= -1 {
      assert (-1 - k) * d >= 0;
    }
  }

  /** Quotient and remainder are determined by the division identity. */
  lemma DivModUnique(x: int, d: int, q: int, r: int)
    requires d > 0 && 0 <= r < d && x == q * d + r
    ensures x / d == q && x % d == r
  {
    var q', r' := x / d, x % d;
    assert x == q' * d + r';
    assert (q - q') * d == r' - r;
    MulAway(q - q', d);
  }

  lemma ModSmall(s: int, d: int)
    requires 0 <= s < d
    ensures s % d == s && s / d == 0
  {
    DivModUnique(s, d, 0, s);
  }

  lemma {:induction false} Pow2Add(a: nat, b: nat)
    ensures Pow2(a + b) == Pow2(a) * Pow2(b)
    decreases b
  {
    if b > 0 {
      Pow2Add(a, b - 1);
      assert Pow2(a + b) == 2 * Pow2(a + (b - 1));
      assert Pow2(a) * (2 * Pow2(b - 1)) == 2 * (Pow2(a) * Pow2(b - 1));
    }
  }

  /** Doubling an exponent squares the power. */
  lemma Pow2Square(k: nat, v: nat, k': nat, v': nat)
    requires Pow2(k) == v && k' == 2 * k && v' == v * v
    ensures Pow2(k') == v'
  {
    Pow2Add(k, k);
  }

  lemma Pow2Mono(a: nat, b: nat)
    requires a <= b
    ensures Pow2(a) <= Pow2(b)
  {
    Pow2Add(a, b - a);
    MulMono(Pow2(a), Pow2(a), 1, Pow2(b - a));
  }

  /** Shifting and masking take a number apart without loss. */
  lemma {:induction false} ShrLow(s: nat, k: nat)
    ensures s == Low(s, k) + Pow2(k) * Shr(s, k)
    decreases k
  {
    if k > 0 {
      ShrLow(s / 2, k - 1);
      Doubled(s / 2, Low(s / 2, k - 1), Pow2(k - 1), Shr(s / 2, k - 1));
    }
  }

  lemma Doubled(s: int, l: int, p: int, h: int)
    requires s == l + p * h
    ensures 2 * s == 2 * l + (2 * p) * h
  {
  }

  /** The two are division and remainder by the power of two. */
  lemma ShrLowIsDivMod(s: nat, k: nat)
    ensures Shr(s, k) == s / Pow2(k) && Low(s, k) == s % Pow2(k)
  {
    ShrLow(s, k);
    assert Shr(s, k) * Pow2(k) == Pow2(k) * Shr(s, k);
    DivModUnique(s, Pow2(k), Shr(s, k), Low(s, k));
  }

  /** So bits are read by division and remainder. */
  lemma GetBitsIsDivMod(s: nat, offset: nat, count: nat)
    ensures GetBits(s, offset, count) == (s / Pow2(offset)) % Pow2(count)
  {
    ShrLowIsDivMod(s, offset);
    ShrLowIsDivMod(Shr(s, offset), count);
  }

  lemma {:induction false} ShrAdd(s: nat, a: nat, b: nat)
    ensures Shr(s, a + b) == Shr(Shr(s, a), b)
    decreases a
  {
    if a > 0 {
      assert Shr(s, a + b) == Shr(s / 2, (a - 1) + b);
      ShrAdd(s / 2, a - 1, b);
    }
  }

  lemma Double(x: int, y: int)
    ensures 2 * (x * y) == (2 * x) * y
  {
  }

  /** The low a + b bits are the low a bits and the b bits above them. */
  lemma {:induction false} LowSplit(s: nat, a: nat, b: nat)
    ensures Low(s, a + b) == Low(s, a) + Pow2(a) * Low(Shr(s, a), b)
    decreases a
  {
    if a > 0 {
      var g := Low(Shr(s / 2, a - 1), b);
      calc {
        Low(s, a + b);
        s % 2 + 2 * Low(s / 2, (a - 1) + b);
        { LowSplit(s / 2, a - 1, b); }
        s % 2 + 2 * (Low(s / 2, a - 1) + Pow2(a - 1) * g);
        { Double(Pow2(a - 1), g); }
        Low(s, a) + Pow2(a) * g;
      }
    }
  }

  lemma {:induction false} LowSmall(s: nat, k: nat)
    requires s < Pow2(k)
    ensures Low(s, k) == s && Shr(s, k) == 0
    decreases k
  {
    if k > 0 {
      LowSmall(s / 2, k - 1);
    }
  }

  lemma LowOfHigh(s: nat, a: nat, b: nat)
    requires a <= b && s < Pow2(a)
    ensures Low(s, b) == s && Shr(s, b) == 0
  {
    Pow2Mono(a, b);
    LowSmall(s, b);
  }

  /** Bits taken above bit k of a number below 2^k are all zero. */
  lemma GetBitsHigh(s: nat, off: nat, cnt: nat, k: nat)
    requires s < Pow2(k) && k <= off
    ensures GetBits(s, off, cnt) == 0
  {
    LowOfHigh(s, k, off);
    LowSmall(0, cnt);
  }

  lemma {:induction false} ShrUpper(s: nat, off: nat, k: nat)
    requires s < Pow2(off + k)
    ensures Shr(s, off) < Pow2(k)
    decreases off
  {
    if off > 0 {
      assert Pow2(off + k) == 2 * Pow2(off - 1 + k);
      ShrUpper(s / 2, off - 1, k);
    }
  }

  /** A bit field that reaches past bit k of a number below 2^k. */
  lemma GetBitsShort(s: nat, off: nat, cnt: nat, k: nat)
    requires s < Pow2(k) && off <= k <= off + cnt
    ensures GetBits(s, off, cnt) == Shr(s, off) < Pow2(k - off)
  {
    ShrUpper(s, off, k - off);
    LowOfHigh(Shr(s, off), k - off, cnt);
  }

  /** A bit field splits into its low a bits and the b bits above them. */
  lemma GetBitsSplit(s: nat, off: nat, a: nat, b: nat)
    ensures GetBits(s, off, a + b) == GetBits(s, off, a) + Pow2(a) * GetBits(s, off + a, b)
  {
    LowSplit(Shr(s, off), a, b);
    ShrAdd(s, off, a);
  }
}
