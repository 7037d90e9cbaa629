/**
 The recoding of a scalar into odd nonzero digits, `secp256k1_wnaf_const`.
 */
module ConstWnaf {
  import opened Arith
  import opened Digits
  import opened Scalars
  import opened FixedWnaf

  predicate OddDigit(x: int, w: nat) {
    Odd(x) && Abs(x) < Pow2(w)
  }

  /** Which power of two makes s odd without changing its size class: 1 for even
      numbers and 2 for odd ones, the other way round when s will be negated. */
  function SkewBit(s: Scalar): nat {
    if IsHigh(s) == (s % 2 == 1) then 0 else 1
  }

  /** `secp256k1_scalar_cadd_bit`: adds 2^bit when `flag` is set. */
  function CaddBit(s: Scalar, bit: nat, flag: bool): int {
    if flag then s + Pow2(bit) else s
  }

  /** The number that is recoded. */
  function Magnitude(s: Scalar): int {
    var t := CaddBit(s, SkewBit(s), Negate(s) != 1);
    if IsHigh(s) then N - t else t
  }

  function GlobalSign(s: Scalar): int {
    if IsHigh(s) && Negate(s) != 1 then -1 else 1
  }

  /** The skewed scalar never leaves the range of a scalar; the recoded number is
      odd and positive and stands for s plus the skew, up to the global sign. */
  lemma MagnitudeFacts(s: Scalar)
    ensures 0 <= CaddBit(s, SkewBit(s), Negate(s) != 1) < N
    ensures Odd(Magnitude(s)) && 0 < Magnitude(s) <= HALF_N + 2
    ensures var m := GlobalSign(s) * Magnitude(s);
            m == s + Pow2(SkewBit(s)) || m == s + Pow2(SkewBit(s)) - N
  {
    assert Pow2(0) == 1 && Pow2(1) == 2;
    assert N == 2 * HALF_N + 1;
  }

  /** What the caller gets: one odd digit for every w bits and one more, none of
      them zero, that stand for s plus a skew of 1 or 2, up to a multiple of N. */
  ghost predicate Recoding(d: seq<int>, s: Scalar, w: nat, size: nat, skew: int)
    requires w > 0
  {
    && |d| == SizeBits(size, w) + 1
    && (forall i :: 0 <= i < |d| ==> OddDigit(d[i], w))
    && (skew == 1 || skew == 2)
    && (Eval(d, w) == s + skew || Eval(d, w) == s + skew - N)
    && Abs(Eval(d, w)) <= HALF_N + 2
  }

  /** The digits have room for the number that is recoded. */
  ghost predicate Fits(s: Scalar, w: nat, size: nat)
    requires w > 0
  {
    Magnitude(s) < Pow2(Offset(w, SizeBits(size, w) + 1))
  }

  /** `size` may be the bit length of the absolute value plus one, and 256 always will do. */
  lemma FitsWhenSmall(s: Scalar, w: nat, size: nat)
    requires w > 0 && size > 0
    requires size == 256 || (if IsHigh(s) then N - s else s) < Pow2(size - 1)
    ensures Fits(s, w, size)
  {
    var n := SizeBits(size, w);
    SizeBitsBounds(size, w);
    OffsetIsProduct(w, n);
    Pow2Mono(size + 1, Offset(w, n + 1));
    assert Pow2(size + 1) == 2 * Pow2(size) && Pow2(size) == 2 * Pow2(size - 1);
    Pow2Values();
    MagnitudeFacts(s);
    assert Pow2(0) == 1 && Pow2(1) == 2;
  }

  lemma MoreWords(word: nat, w: nat, size: nat)
    requires w > 0 && size > 0
    ensures word * w < size <==> word < SizeBits(size, w)
  {
    var n := SizeBits(size, w);
    SizeBitsBounds(size, w);
    if word < n {
      MulMono(word, n - 1, w, w);
    } else {
      MulMono(n, word, w, w);
    }
  }

  /** The loop's invariant: the digits written, before the global sign, and the
      pending word stand for the low bits of m. */
  ghost predicate Partial(m: nat, d: seq<int>, w: nat, uLast: int)
  {
    && w >= 1
    && Eval(d, w) + Weight(w, |d|) * uLast == Low(m, Offset(w, |d| + 1))
    && (forall i :: 0 <= i < |d| ==> OddDigit(d[i], w))
    && OddDigit(uLast, w) && uLast > 0
  }

  lemma First(m: nat, w: nat)
    requires w >= 1 && Odd(m)
    ensures Partial(m, [], w, Low(m, w))
  {
    LowIsOdd(m, w);
    assert Offset(w, 1) == Offset(w, 0) + w;
  }

  lemma LowIsOdd(m: nat, w: nat)
    requires w >= 1 && Odd(m)
    ensures Odd(Low(m, w)) && 0 < Low(m, w)
  {
    assert Low(m, w) == m % 2 + 2 * Low(m / 2, w - 1);
  }

  /** An even word is made odd by borrowing from the word below it. */
  ghost predicate Borrowed(uLast: int, u: int, q: int, uLast': int, u': int) {
    if u % 2 == 0 then uLast' == uLast - q && u' == u + 1 else uLast' == uLast && u' == u
  }

  lemma BorrowKeepsValue(v: int, p: int, q: int, u: int, uLast: int, u': int, uLast': int)
    requires Borrowed(uLast, u, q, uLast', u')
    ensures (v + p * uLast') + (q * p) * u' == v + p * uLast + (q * p) * u
  {
    assert p * (uLast - q) == p * uLast - q * p;
    assert (q * p) * (u + 1) == (q * p) * u + q * p;
  }

  lemma DigitsStayOdd(w: nat, uLast: int, u: int, uLast': int, u': int)
    requires w >= 1 && OddDigit(uLast, w) && uLast > 0 && 0 <= u < Pow2(w)
    requires Borrowed(uLast, u, Pow2(w), uLast', u')
    ensures OddDigit(uLast', w) && OddDigit(u', w) && u' > 0
  {
    assert Pow2(w) == 2 * Pow2(w - 1);
  }

  lemma StepValue(m: nat, d: seq<int>, w: nat, uLast: int, u: int, uLast': int, u': int)
    requires Eval(d, w) + Weight(w, |d|) * uLast == Low(m, Offset(w, |d| + 1))
    requires u == GetBits(m, Offset(w, |d| + 1), w)
    requires Borrowed(uLast, u, Pow2(w), uLast', u')
    ensures Eval(d + [uLast'], w) + Weight(w, |d| + 1) * u' == Low(m, Offset(w, |d| + 2))
  {
    EvalAppend(d, uLast', w);
    LowSplit(m, Offset(w, |d| + 1), w);
    WeightIsPow2(w, |d| + 1);
    BorrowKeepsValue(Eval(d, w), Weight(w, |d|), Pow2(w), u, uLast, u', uLast');
  }

  /** One turn of the loop. */
  lemma Step(m: nat, d: seq<int>, w: nat, uLast: int, u: int, uLast': int, u': int)
    requires Partial(m, d, w, uLast)
    requires u == GetBits(m, Offset(w, |d| + 1), w)
    requires Borrowed(uLast, u, Pow2(w), uLast', u')
    ensures Partial(m, d + [uLast'], w, u')
  {
    StepValue(m, d, w, uLast, u, uLast', u');
    DigitsStayOdd(w, uLast, u, uLast', u');
  }

  lemma {:induction false} EvalFlip(d: seq<int>, e: seq<int>, w: nat, sign: int)
    requires sign == 1 || sign == -1
    requires |d| == |e| && forall i :: 0 <= i < |d| ==> e[i] == d[i] * sign
    ensures Eval(e, w) == sign * Eval(d, w)
    decreases |d|
  {
    if d != [] {
      EvalFlip(d[1..], e[1..], w, sign);
      var t := Eval(d[1..], w);
      assert Pow2(w) * (sign * t) == sign * (Pow2(w) * t);
      assert sign * (d[0] + Pow2(w) * t) == sign * d[0] + sign * (Pow2(w) * t);
    }
  }

  lemma FinalValue(m: nat, d: seq<int>, w: nat, u: int)
    requires Partial(m, d, w, u) && m < Pow2(Offset(w, |d| + 1))
    ensures Eval(d + [u], w) == m
  {
    LowSmall(m, Offset(w, |d| + 1));
    EvalAppend(d, u, w);
  }

  lemma Finished(s: Scalar, d: seq<int>, e: seq<int>, w: nat, size: nat, u: int, sign: int)
    requires w > 0 && size > 0 && Fits(s, w, size) && sign == GlobalSign(s)
    requires |d| == SizeBits(size, w) && Partial(Magnitude(s), d, w, u)
    requires |e| == |d| + 1 && e[|d|] == u * sign
    requires forall i :: 0 <= i < |d| ==> e[i] == d[i] * sign
    ensures Recoding(e, s, w, size, Pow2(SkewBit(s)))
  {
    FinalValue(Magnitude(s), d, w, u);
    EvalFlip(d + [u], e, w, sign);
    MagnitudeFacts(s);
    assert Pow2(0) == 1 && Pow2(1) == 2;
    forall i | 0 <= i < |e| ensures OddDigit(e[i], w) {
      SignedDigit(if i < |d| then d[i] else u, sign, w);
    }
  }

  lemma SignedDigit(x: int, sign: int, w: nat)
    requires OddDigit(x, w) && (sign == 1 || sign == -1)
    ensures OddDigit(x * sign, w)
  {
  }

  /** The odd number that is recoded, the sign to give its digits, and the skew:
      with that sign the number is s plus the skew, up to one multiple of N. */
  method SkewAndSign(s: Scalar) returns (t: nat, globalSign: int, skew: int)
    ensures t == Magnitude(s) && globalSign == GlobalSign(s) && skew == Pow2(SkewBit(s))
    ensures Odd(t) && 0 < t <= HALF_N + 2
    ensures (globalSign == 1 || globalSign == -1) && (skew == 1 || skew == 2)
    ensures globalSign * t == s + skew || globalSign * t == s + skew - N
  {
    var flip := IsHigh(s);
    var bit := SkewBit(s);
    var notNegOne := Negate(s) != 1;
    MagnitudeFacts(s);
    t := CaddBit(s, bit, notNegOne);
    if flip {
      t := N - t;
    }
    globalSign := if flip then -1 else 1;
    globalSign := if notNegOne then globalSign else -globalSign;
    skew := Pow2(bit);
    assert Pow2(0) == 1 && Pow2(1) == 2;
  }

  method MakeOdd(uLast0: int, u0: int, w: nat) returns (uLast: int, u: int)
    requires uLast0 > 0
    ensures Borrowed(uLast0, u0, Pow2(w), uLast, u)
  {
    var even := if u0 % 2 == 0 then 1 else 0;
    var sign := if uLast0 > 0 then 1 else -1;
    u := u0 + sign * even;
    uLast := uLast0 - sign * even * Pow2(w);
  }

  method Recode(wnaf: array<int>, s: Scalar, w: nat, size: nat) returns (skew: int)
    requires 0 < w < 16 && size > 0 && wnaf.Length == SizeBits(size, w) + 1
    requires Fits(s, w, size)
    modifies wnaf
    ensures Recoding(wnaf[..], s, w, size, skew)
  {
    var t, globalSign;
    t, globalSign, skew := SkewAndSign(s);

    MagnitudeFacts(s);
    ghost var m, d: seq<int> := t, [];
    First(m, w);
    var word := 0;
    var u: int := 0;
    var uLast: int := Low(t, w);
    t := Shr(t, w);
    MoreWords(0, w, size);
    while word * w < size
      invariant word == |d| <= SizeBits(size, w)
      invariant t == Shr(m, Offset(w, word + 1))
      invariant Partial(m, d, w, uLast) && (word > 0 ==> u == uLast)
      invariant forall i :: 0 <= i < word ==> wnaf[i] == d[i] * globalSign
      decreases SizeBits(size, w) - word
    {
      MoreWords(word, w, size);
      u := Low(t, w);
      ShrAdd(m, Offset(w, word + 1), w);
      t := Shr(t, w);
      ghost var u0, uLast0 := u, uLast;
      uLast, u := MakeOdd(uLast, u, w);
      Step(m, d, w, uLast0, u0, uLast, u);
      d := d + [uLast];
      wnaf[word] := uLast * globalSign;
      word := word + 1;
      uLast := u;
    }
    MoreWords(word, w, size);
    wnaf[word] := u * globalSign;
    assert t == 0 by { LowSmall(m, Offset(w, word + 1)); }
    Finished(s, d, wnaf[..], w, size, u, globalSign);
  }
}
