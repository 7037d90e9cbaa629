/**
 The sliding-window recoding of a scalar, `secp256k1_ecmult_wnaf`.
 */
module SlidingWnaf {
  import opened Arith
  import opened Digits
  import opened Scalars

  /** Width-w non-adjacent form: digits are 0 or odd with |d| < 2^(w-1), and of
      any w neighbouring digits at most one is nonzero. */
  ghost predicate IsWnaf(d: seq<int>, w: nat)
    requires w >= 1
  {
    && (forall i :: 0 <= i < |d| && d[i] != 0 ==> Odd(d[i]) && Abs(d[i]) < Pow2(w - 1))
    && (forall i, j :: 0 <= i < j < |d| && d[i] != 0 && d[j] != 0 ==> j - i >= w)
  }

  lemma BitSet(s: nat, k: nat)
    ensures GetBits(s, k, 1) <= 1
    ensures GetBits(s, k, 1) == 1 ==> s >= Pow2(k)
    ensures Low(s, k + 1) == Low(s, k) + Pow2(k) * GetBits(s, k, 1)
  {
    LowSplit(s, k, 1);
    if s < Pow2(k) {
      GetBitsHigh(s, k, 1, k);
    }
  }

  lemma TopOfWindow(g: nat, low: nat, top: nat, half: nat)
    requires g == low + half * top && low < half <= g && g < 2 * half
    ensures top == 1
  {
    if top >= 2 {
      MulMono(2, top, half, half);
      assert false;
    }
  }

  /** An even word takes a carry and an odd one does not. */
  lemma OddWord(b0: nat, rest: nat, half: nat, carry: int)
    requires b0 <= 1 && 0 <= carry <= 1 && b0 != carry && rest < half
    ensures Odd(b0 + 2 * rest + carry) && 0 < b0 + 2 * rest + carry < 2 * half
  {
  }

  /** The bits of one window, with the incoming carry, as an odd word. */
  lemma Window(s: nat, bit: nat, now: nat, w: nat, carry: int)
    requires 2 <= w && 1 <= now <= w && 0 <= carry <= 1
    requires GetBits(s, bit, 1) != carry
    ensures var word := GetBits(s, bit, now) + carry;
            && Odd(word) && 0 < word < Pow2(now) <= Pow2(w)
            && (word >= Pow2(w - 1) ==> now == w && GetBits(s, bit + w - 1, 1) == 1)
  {
    GetBitsSplit(s, bit, 1, now - 1);
    assert Pow2(1) == 2;
    OddWord(GetBits(s, bit, 1), GetBits(s, bit + 1, now - 1), Pow2(now - 1), carry);
    Pow2Mono(now, w);
    if now < w {
      Pow2Mono(now, w - 1);
    } else {
      FullWindow(s, bit, w, carry);
    }
  }

  lemma FullWindow(s: nat, bit: nat, w: nat, carry: int)
    requires 2 <= w && 0 <= carry <= 1 && GetBits(s, bit, 1) != carry
    requires GetBits(s, bit, w) + carry < Pow2(w)
    ensures GetBits(s, bit, w) + carry >= Pow2(w - 1) ==> GetBits(s, bit + w - 1, 1) == 1
  {
    var g, half := GetBits(s, bit, w), Pow2(w - 1);
    var low, top := GetBits(s, bit, w - 1), GetBits(s, bit + w - 1, 1);
    GetBitsSplit(s, bit, w - 1, 1);
    if g + carry >= half {
      if carry == 1 {
        EvenBelow(s, bit, w - 1);
      }
      if g < half {
        OnlyCarry(low, half, top);
      } else {
        TopOfWindow(g, low, top, half);
      }
    }
  }

  /** Without its lowest bit a field of k bits is at least two short of 2^k. */
  lemma EvenBelow(s: nat, bit: nat, k: nat)
    requires k >= 1 && GetBits(s, bit, 1) == 0
    ensures GetBits(s, bit, k) + 1 < Pow2(k)
  {
    GetBitsSplit(s, bit, 1, k - 1);
    assert Pow2(1) == 2;
  }

  lemma OnlyCarry(low: nat, half: nat, top: nat)
    requires low + 1 < half && top <= 1 && half <= low + half * top + 1
    ensures top == 1
  {
  }

  /** The carry out of a window is the top bit of its word. */
  lemma {:induction false} CarryOut(word: nat, w: nat)
    requires 1 <= w && word < Pow2(w)
    ensures Shr(word, w - 1) % 2 == if word >= Pow2(w - 1) then 1 else 0
    decreases w
  {
    if w > 1 {
      CarryOut(word / 2, w - 1);
    }
  }

  /** `sign * x`, for a sign of 1 or -1. */
  function Flip(sign: int, x: int): int {
    if sign == 1 then x else -x
  }

  /** `carry << k`, for a carry of 0 or 1. */
  function CarryAt(carry: int, k: nat): int {
    if carry == 1 then Pow2(k) else 0
  }

  /** The value identity across one window of weight p, as plain arithmetic. */
  lemma WindowValue(sign: int, e: int, c: int, p: int, g: int, q: int, pq: int)
    requires sign == 1 || sign == -1
    requires pq == p * q
    ensures Flip(sign, e + p * Flip(sign, g + c - q)) + pq == Flip(sign, e) + p * c + p * g
  {
    var x := g + c - q;
    assert p * x == p * g + p * c - p * q;
    assert p * (-x) == -(p * x);
  }

  /** The recoding loop's value invariant: the digits written so far, corrected
      by the carry, stand for the low `bit` bits of s. */
  ghost predicate Value(s: nat, d: seq<int>, bit: nat, carry: int, sign: int)
  {
    && bit <= |d| && 0 <= carry <= 1 && (sign == 1 || sign == -1)
    && Flip(sign, Eval(d[..bit], 1)) + CarryAt(carry, bit) == Low(s, bit)
    && (carry == 1 ==> bit > 0 && GetBits(s, bit - 1, 1) == 1)
  }

  /** Its shape invariant: `last` is the last nonzero digit written, and the
      next nonzero one will be at least w places above it. */
  ghost predicate Shape(s: nat, d: seq<int>, w: nat, bit: nat, last: int)
  {
    && 2 <= w && -1 <= last < bit <= |d|
    && (forall i :: last < i < |d| ==> d[i] == 0)
    && (last >= 0 ==> d[last] != 0 && Pow2(last) <= 2 * s && (last + w <= bit || bit == |d|))
    && IsWnaf(d, w)
  }

  lemma SkipBit(s: nat, d: seq<int>, bit: nat, carry: int, sign: int)
    requires Value(s, d, bit, carry, sign) && bit < |d| && d[bit] == 0
    requires GetBits(s, bit, 1) == carry
    ensures Value(s, d, bit + 1, carry, sign)
  {
    BitSet(s, bit);
    EvalPadded(d[..bit], d[..bit + 1], 1);
  }

  lemma EvalWritten(d: seq<int>, bit: nat, now: nat, x: int)
    requires bit < bit + now <= |d| && forall i :: bit <= i < |d| ==> d[i] == 0
    ensures Eval(d[bit := x][..bit + now], 1) == Eval(d[..bit], 1) + Pow2(bit) * x
  {
    var d' := d[bit := x];
    EvalAppend(d[..bit], x, 1);
    WeightIsPow2(1, bit);
    OffsetIsProduct(1, bit);
    assert d'[..bit + 1] == d[..bit] + [x];
    EvalPadded(d'[..bit + 1], d'[..bit + now], 1);
  }

  lemma TakeWindowValue(s: nat, d: seq<int>, bit: nat, now: nat, w: nat, carry: int, carry': int,
                        sign: int, digit: int)
    requires Value(s, d, bit, carry, sign) && bit < bit + now <= |d|
    requires forall i :: bit <= i < |d| ==> d[i] == 0
    requires 0 <= carry' <= 1 && (carry' == 1 ==> now == w && GetBits(s, bit + w - 1, 1) == 1)
    requires digit == GetBits(s, bit, now) + carry - CarryAt(carry', w)
    ensures Value(s, d[bit := Flip(sign, digit)], bit + now, carry', sign)
  {
    var e, p, g, q := Eval(d[..bit], 1), Pow2(bit), GetBits(s, bit, now), CarryAt(carry', w);
    EvalWritten(d, bit, now, Flip(sign, digit));
    LowSplit(s, bit, now);
    CarryMoves(carry', bit, now, w);
    CarryWeight(carry, bit);
    WindowValue(sign, e, carry, p, g, q, CarryAt(carry', bit + now));
  }

  lemma CarryWeight(carry: int, bit: nat)
    requires 0 <= carry <= 1
    ensures CarryAt(carry, bit) == Pow2(bit) * carry
  {
  }

  lemma CarryMoves(carry: int, bit: nat, now: nat, w: nat)
    requires carry == 1 ==> now == w
    ensures CarryAt(carry, bit + now) == Pow2(bit) * CarryAt(carry, w)
  {
    Pow2Add(bit, now);
  }

  lemma DigitBound(s: nat, bit: nat, now: nat, w: nat, carry: int, digit: int)
    requires 2 <= w && 1 <= now <= w && 0 <= carry <= 1
    requires GetBits(s, bit, 1) != carry
    requires digit == GetBits(s, bit, now) + carry
                    - CarryAt(if GetBits(s, bit, now) + carry >= Pow2(w - 1) then 1 else 0, w)
    ensures Odd(digit) && Abs(digit) < Pow2(w - 1)
  {
    Window(s, bit, now, w, carry);
    assert Pow2(w) == 2 * Pow2(w - 1);
    assert Pow2(w - 1) == 2 * Pow2(w - 2);
  }

  lemma BitWeight(s: nat, bit: nat, carry: int)
    requires 0 <= carry <= 1 && GetBits(s, bit, 1) != carry
    requires carry == 1 ==> bit > 0 && GetBits(s, bit - 1, 1) == 1
    ensures Pow2(bit) <= 2 * s
  {
    BitSet(s, bit);
    if bit > 0 {
      BitSet(s, bit - 1);
    }
  }

  lemma TakeWindowShape(s: nat, d: seq<int>, w: nat, bit: nat, now: nat, last: int, x: int)
    requires Shape(s, d, w, bit, last) && bit < |d|
    requires now == if w > |d| - bit then |d| - bit else w
    requires Odd(x) && Abs(x) < Pow2(w - 1) && Pow2(bit) <= 2 * s
    ensures Shape(s, d[bit := x], w, bit + now, bit)
  {
  }

  /** One turn of the loop that writes a digit, from the bits it reads to what it keeps. */
  lemma TakeWindow(s: nat, d: seq<int>, w: nat, bit: nat, now: nat, carry: int, carry': int,
                   sign: int, last: int, word: int, digit: int)
    requires Value(s, d, bit, carry, sign) && Shape(s, d, w, bit, last) && bit < |d|
    requires GetBits(s, bit, 1) != carry
    requires now == if w > |d| - bit then |d| - bit else w
    requires word == GetBits(s, bit, now) + carry
    requires carry' == Shr(word, w - 1) % 2
    requires digit == word - CarryAt(carry', w)
    ensures Value(s, d[bit := Flip(sign, digit)], bit + now, carry', sign)
    ensures Shape(s, d[bit := Flip(sign, digit)], w, bit + now, bit)
  {
    Window(s, bit, now, w, carry);
    CarryOut(word, w);
    DigitBound(s, bit, now, w, carry, digit);
    BitWeight(s, bit, carry);
    TakeWindowShape(s, d, w, bit, now, last, Flip(sign, digit));
    TakeWindowValue(s, d, bit, now, w, carry, carry', sign, digit);
  }

  /** What the caller gets: a digit string in width-w form for the signed value
      of a, with `setBits` the number of digits up to the last nonzero one. */
  ghost predicate Recoding(d: seq<int>, a: Scalar, w: nat, setBits: nat)
    requires w >= 1
  {
    && IsWnaf(d, w)
    && setBits <= |d| && (setBits > 0 ==> d[setBits - 1] != 0)
    && (forall i :: setBits <= i < |d| ==> d[i] == 0)
    // at most one more digit than the absolute value has bits
    && (setBits > 0 ==> Pow2(setBits - 1) <= 2 * Abs(Signed(a)))
    && (|d| > 0 && Abs(Signed(a)) < Pow2(|d| - 1) ==> Eval(d, 1) == Signed(a))
  }

  lemma Finished(a: Scalar, s: nat, d: seq<int>, w: nat, carry: int, sign: int, last: int)
    requires Value(s, d, |d|, carry, sign) && Shape(s, d, w, |d|, last)
    requires Flip(sign, s) == Signed(a)
    ensures Recoding(d, a, w, last + 1)
    ensures |d| > 0 && s < Pow2(|d| - 1) ==> carry == 0
  {
    if |d| > 0 && s < Pow2(|d| - 1) {
      BitSet(s, |d| - 1);
      LowOfHigh(s, |d| - 1, |d|);
      assert d[..|d|] == d;
    }
  }

  /** `memset(a, 0, len * sizeof(a[0]))`. */
  method Clear(a: array<int>, len: nat)
    requires len <= a.Length
    modifies a
    ensures forall i :: 0 <= i < len ==> a[i] == 0
    ensures forall i :: len <= i < a.Length ==> a[i] == old(a[i])
  {
    for i := 0 to len
      invariant forall j :: 0 <= j < i ==> a[j] == 0
      invariant forall i :: len <= i < a.Length ==> a[i] == old(a[i])
    {
      a[i] := 0;
    }
  }

  /** One nonzero digit: takes up to w bits, makes the word signed by carrying out
      its top bit, and writes it. */
  method WriteWindow(wnaf: array<int>, len: nat, s: nat, w: nat, bit: nat, carry0: int, sign: int,
                     ghost d0: seq<int>, ghost last: int)
      returns (carry: int, now: nat, ghost d: seq<int>)
    requires bit < len <= wnaf.Length && d0 == wnaf[..len]
    requires Value(s, d0, bit, carry0, sign) && Shape(s, d0, w, bit, last) && GetBits(s, bit, 1) != carry0
    modifies wnaf
    ensures d == wnaf[..len] && 0 < now <= len - bit
    ensures forall i :: len <= i < wnaf.Length ==> wnaf[i] == old(wnaf[i])
    ensures Value(s, d, bit + now, carry, sign) && Shape(s, d, w, bit + now, bit)
  {
    now := w;
    if now > len - bit {
      now := len - bit;
    }
    var word: int := GetBits(s, bit, now) + carry0;
    ghost var taken := word;
    carry := Shr(word, w - 1) % 2;
    word := word - CarryAt(carry, w);
    TakeWindow(s, d0, w, bit, now, carry0, carry, sign, last, taken, word);
    wnaf[bit] := Flip(sign, word);
    d := d0[bit := Flip(sign, word)];
  }

  /** Whether the scalar is recoded negated, and what is recoded. */
  method SignOf(a: Scalar) returns (s: nat, sign: int)
    ensures (sign == 1 || sign == -1) && Flip(sign, s) == Signed(a)
  {
    s, sign := a, 1;
    if GetBits(s, 255, 1) != 0 {
      s := Negate(a);
      sign := -1;
    }
    TopBit(a);
  }

  method Recode(wnaf: array<int>, len: nat, a: Scalar, w: nat) returns (setBits: nat)
    requires len <= 256 && len <= wnaf.Length && 2 <= w <= 31
    modifies wnaf
    ensures forall i :: len <= i < wnaf.Length ==> wnaf[i] == old(wnaf[i])
    ensures Recoding(wnaf[..len], a, w, setBits)
  {
    var lastSetBit := -1;
    var bit := 0;
    var carry := 0;

    Clear(wnaf, len);
    var s, sign := SignOf(a);

    ghost var d := wnaf[..len];
    while bit < len
      invariant d == wnaf[..len]
      invariant forall i :: len <= i < wnaf.Length ==> wnaf[i] == old(wnaf[i])
      invariant Value(s, d, bit, carry, sign) && Shape(s, d, w, bit, lastSetBit)
    {
      if GetBits(s, bit, 1) == carry {
        SkipBit(s, d, bit, carry, sign);
        bit := bit + 1;
        continue;
      }
      var now;
      carry, now, d := WriteWindow(wnaf, len, s, w, bit, carry, sign, d, lastSetBit);
      lastSetBit := bit;
      bit := bit + now;
    }
    Finished(a, s, d, w, carry, sign, lastSetBit);
    assert len > 0 && s < Pow2(len - 1) ==> carry == 0;
    setBits := lastSetBit + 1;
  }
}
