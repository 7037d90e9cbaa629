/**
 The fixed-position recoding of a scalar, `secp256k1_wnaf_fixed`.
 */
module FixedWnaf {
  import opened Arith
  import opened Digits
  import opened Scalars

  const WNAF_BITS: nat := 256

  /** WNAF_SIZE_BITS: the number of w-bit words that hold `bits` bits. */
  function SizeBits(bits: nat, w: nat): nat
    requires w > 0
  {
    (bits + w - 1) / w
  }

  lemma SizeBitsBounds(bits: nat, w: nat)
    requires w > 0 && bits > 0
    ensures var n := SizeBits(bits, w); 0 < n && (n - 1) * w < bits <= n * w
  {
    var n := SizeBits(bits, w);
    assert bits + w - 1 == n * w + (bits + w - 1) % w;
    MulAway(n, w);
    assert (n - 1) * w == n * w - w;
  }

  ghost predicate SmallDigit(x: int, w: nat) {
    x == 0 || (Odd(x) && Abs(x) < Pow2(w))
  }

  /** What the caller gets: one digit for every w bits, each 0 or odd and below
      2^w in absolute value, that stand for s + skew. */
  ghost predicate Recoding(d: seq<int>, s: Scalar, w: nat, skew: int)
    requires w > 0
  {
    && |d| == SizeBits(WNAF_BITS, w)
    && (forall i :: 0 <= i < |d| ==> SmallDigit(d[i], w))
    && skew == (if s != 0 && s % 2 == 0 then 1 else 0)
    && Eval(d, w) - skew == s
  }

  /** The loop's invariant. The digits below `pos` stand for the low w*pos bits
      of s plus the skew; the last of them is still odd and positive. */
  ghost predicate Partial(s: nat, d: seq<int>, w: nat, pos: nat, off: nat, skew: int)
  {
    && 1 <= w && 1 <= pos <= |d| && off == Offset(w, pos)
    && Eval(d[..pos], w) == Low(s, off) + skew
    && (forall i :: 0 <= i < pos ==> SmallDigit(d[i], w))
    && Odd(d[pos - 1]) && d[pos - 1] > 0
  }

  lemma PrefixUpdate(d: seq<int>, i: nat, x: int, pos: nat, w: nat)
    requires i < pos <= |d|
    ensures Eval(d[i := x][..pos], w) == Eval(d[..pos], w) + Weight(w, i) * (x - d[i])
  {
    EvalUpdate(d[..pos], i, x, w);
    assert d[i := x][..pos] == d[..pos][i := x];
  }

  lemma PrefixAppend(d: seq<int>, pos: nat, w: nat)
    requires pos < |d|
    ensures Eval(d[..pos + 1], w) == Eval(d[..pos], w) + Weight(w, pos) * d[pos]
  {
    assert d[..pos + 1] == d[..pos] + [d[pos]];
    EvalAppend(d[..pos], d[pos], w);
  }

  /** The digits after one window is taken in: an even window borrows from the
      digit below, so that every digit stays odd. */
  ghost function Taken(d: seq<int>, w: nat, pos: nat, val: int): seq<int>
    requires 1 <= pos < |d|
  {
    if val % 2 == 0 then d[pos - 1 := d[pos - 1] - Pow2(w)][pos := val + 1] else d[pos := val]
  }

  lemma Borrow(e: int, p: int, q: int, x: int, val: int)
    ensures e + p * ((x - q) - x) + (q * p) * (val + 1) == e + (q * p) * val
  {
    assert p * (-q) == -(q * p);
    assert (q * p) * (val + 1) == (q * p) * val + q * p;
  }

  lemma TakenValue(s: nat, d: seq<int>, w: nat, pos: nat, off: nat, skew: int, val: int)
    requires Partial(s, d, w, pos, off, skew) && pos < |d|
    requires val == GetBits(s, off, w)
    ensures Eval(Taken(d, w, pos, val)[..pos + 1], w) == Low(s, off + w) + skew
  {
    var d' := Taken(d, w, pos, val);
    WeightIsPow2(w, pos);
    LowSplit(s, off, w);
    PrefixAppend(d', pos, w);
    if val % 2 == 0 {
      var x := d[pos - 1];
      PrefixUpdate(d, pos - 1, x - Pow2(w), pos, w);
      assert d'[..pos] == d[pos - 1 := x - Pow2(w)][..pos];
      Borrow(Eval(d[..pos], w), Weight(w, pos - 1), Pow2(w), x, val);
    } else {
      assert d'[..pos] == d[..pos];
    }
  }

  lemma TakenShape(d: seq<int>, w: nat, pos: nat, val: int)
    requires 1 <= w && 1 <= pos < |d| && 0 <= val < Pow2(w)
    requires forall i :: 0 <= i < pos ==> SmallDigit(d[i], w)
    requires Odd(d[pos - 1]) && d[pos - 1] > 0
    ensures var d' := Taken(d, w, pos, val);
            && |d'| == |d| && Odd(d'[pos]) && d'[pos] > 0
            && forall i :: 0 <= i < pos + 1 ==> SmallDigit(d'[i], w)
  {
    var d' := Taken(d, w, pos, val);
    Moved(d[pos - 1], w);
    NextDigit(val, w);
    assert forall i :: 0 <= i < pos - 1 ==> d'[i] == d[i];
  }

  lemma NextDigit(val: int, w: nat)
    requires w >= 1 && 0 <= val < Pow2(w)
    ensures var x := if val % 2 == 0 then val + 1 else val;
            Odd(x) && x > 0 && SmallDigit(x, w)
  {
    EvenPower(w);
  }

  lemma EvenPower(w: nat)
    requires w >= 1
    ensures Pow2(w) % 2 == 0
  {
    DivModUnique(Pow2(w), 2, Pow2(w - 1), 0);
  }

  lemma Take(s: nat, d: seq<int>, w: nat, pos: nat, off: nat, skew: int, val: int)
    requires Partial(s, d, w, pos, off, skew) && pos < |d|
    requires val == GetBits(s, off, w)
    ensures Partial(s, Taken(d, w, pos, val), w, pos + 1, off + w, skew)
  {
    TakenValue(s, d, w, pos, off, skew, val);
    TakenShape(d, w, pos, val);
  }

  /** A 1 above a negative digit, or a -1 above a positive one, is folded into it. */
  ghost function Folded(d: seq<int>, w: nat, pos: nat): seq<int>
    requires pos < |d|
  {
    if pos >= 2 && d[pos - 1] == 1 && d[pos - 2] < 0 then
      d[pos - 2 := d[pos - 2] + Pow2(w)][pos - 1 := 0]
    else if pos >= 2 && d[pos - 1] == -1 && d[pos - 2] > 0 then
      d[pos - 2 := d[pos - 2] - Pow2(w)][pos - 1 := 0]
    else d
  }

  lemma FoldCancels(e: int, p: int, q: int, y: int)
    ensures (e + p * (y * q)) + (q * p) * (0 - y) == e
  {
    assert p * (y * q) == (q * p) * y;
  }

  lemma FoldedValue(d: seq<int>, w: nat, pos: nat, y: int)
    requires 2 <= pos < |d| && d[pos - 1] == y
    ensures Eval(d[pos - 2 := d[pos - 2] + y * Pow2(w)][pos - 1 := 0][..pos + 1], w)
         == Eval(d[..pos + 1], w)
  {
    var x := d[pos - 2] + y * Pow2(w);
    PrefixUpdate(d, pos - 2, x, pos + 1, w);
    PrefixUpdate(d[pos - 2 := x], pos - 1, 0, pos + 1, w);
    FoldCancels(Eval(d[..pos + 1], w), Weight(w, pos - 2), Pow2(w), y);
  }

  lemma FoldedShape(d: seq<int>, w: nat, pos: nat)
    requires 1 <= w && pos < |d| && forall i :: 0 <= i < pos + 1 ==> SmallDigit(d[i], w)
    ensures var d' := Folded(d, w, pos);
            |d'| == |d| && forall i :: 0 <= i < pos + 1 ==> SmallDigit(d'[i], w)
  {
    var d' := Folded(d, w, pos);
    if pos >= 2 {
      Moved(d[pos - 2], w);
      assert forall i :: 0 <= i < pos + 1 && i != pos - 1 && i != pos - 2 ==> d'[i] == d[i];
    }
  }

  lemma Moved(x: int, w: nat)
    requires w >= 1 && SmallDigit(x, w)
    ensures x < 0 ==> SmallDigit(x + Pow2(w), w)
    ensures x > 0 ==> SmallDigit(x - Pow2(w), w)
  {
    EvenPower(w);
  }

  lemma Fold(s: nat, d: seq<int>, w: nat, pos: nat, off: nat, skew: int)
    requires 1 <= pos < |d| && Partial(s, d, w, pos + 1, off, skew)
    ensures Partial(s, Folded(d, w, pos), w, pos + 1, off, skew)
  {
    FoldedShape(d, w, pos);
    if pos >= 2 {
      FoldedValue(d, w, pos, d[pos - 1]);
    }
  }

  /** One turn of the main loop. */
  lemma TakeAndFold(s: nat, d: seq<int>, w: nat, pos: nat, skew: int, val: int)
    requires Partial(s, d, w, pos, Offset(w, pos), skew) && pos < |d|
    requires val == GetBits(s, Offset(w, pos), w)
    ensures var d' := Folded(Taken(d, w, pos, val), w, pos);
            && |d'| == |d|
            && Partial(s, d', w, pos + 1, Offset(w, pos + 1), skew)
  {
    Take(s, d, w, pos, Offset(w, pos), skew, val);
    Fold(s, Taken(d, w, pos, val), w, pos, Offset(w, pos + 1), skew);
  }

  /** A short last window reads the same bits as a full one. */
  lemma LastWindow(s: nat, w: nat, off: nat, lastW: nat)
    requires s < Pow2(WNAF_BITS) && off + lastW == WNAF_BITS && lastW <= w
    ensures GetBits(s, off, lastW) == GetBits(s, off, w)
  {
    GetBitsShort(s, off, lastW, WNAF_BITS);
    GetBitsShort(s, off, w, WNAF_BITS);
  }

  lemma SkipZeroWindow(s: nat, off: nat, w: nat)
    requires Shr(s, off + w) == 0 && GetBits(s, off, w) == 0
    ensures Shr(s, off) == 0
  {
    ShrAdd(s, off, w);
    ShrLow(Shr(s, off), w);
  }

  lemma LowParity(s: nat, w: nat, skew: int)
    requires 1 <= w && skew == if s % 2 == 0 then 1 else 0
    ensures Odd(Low(s, w) + skew) && 0 < Low(s, w) + skew < Pow2(w)
  {
    assert Low(s, w) == s % 2 + 2 * Low(s / 2, w - 1);
    assert Pow2(w) == 2 * Pow2(w - 1);
  }

  lemma FirstDigit(s: nat, d: seq<int>, w: nat, skew: int)
    requires 1 <= w && |d| > 0 && d[0] == GetBits(s, 0, w) + skew
    requires skew == if s % 2 == 0 then 1 else 0
    ensures Partial(s, d, w, 1, w, skew)
  {
    assert d[..1] == [] + [d[0]];
    EvalAppend([], d[0], w);
    LowParity(s, w, skew);
  }

  lemma Finished(s: Scalar, d: seq<int>, w: nat, pos: nat, off: nat, skew: int)
    requires Partial(s, d, w, pos, off, skew) && Shr(s, off) == 0 && s != 0
    requires |d| == SizeBits(WNAF_BITS, w) && skew == if s % 2 == 0 then 1 else 0
    requires forall i :: pos <= i < |d| ==> d[i] == 0
    ensures Recoding(d, s, w, skew)
  {
    ShrLow(s, off);
    EvalPadded(d[..pos], d, w);
  }

  lemma ZeroRecoding(d: seq<int>, w: nat)
    requires w > 0 && |d| == SizeBits(WNAF_BITS, w) && forall i :: 0 <= i < |d| ==> d[i] == 0
    ensures Recoding(d, 0, w, 0)
  {
    EvalPadded([], d, w);
  }

  /** The bits of word `pos`, of which the last may be short. */
  method Word(s: nat, w: nat, pos: nat) returns (val: nat)
    requires 0 < w <= 31 && pos < SizeBits(WNAF_BITS, w)
    requires s < Pow2(WNAF_BITS)
    ensures val == GetBits(s, Offset(w, pos), w)
  {
    SizeBitsBounds(WNAF_BITS, w);
    var n := SizeBits(WNAF_BITS, w);
    var lastW := WNAF_BITS - (n - 1) * w;
    LastWordFits(n, w, pos, s);
    val := GetBits(s, pos * w, if pos == n - 1 then lastW else w);
  }

  lemma LastWordFits(n: nat, w: nat, pos: nat, s: nat)
    requires 0 < w && 0 < n && (n - 1) * w < WNAF_BITS <= n * w && pos < n && s < Pow2(WNAF_BITS)
    ensures pos * w == Offset(w, pos)
    ensures pos == n - 1 ==> GetBits(s, pos * w, WNAF_BITS - pos * w) == GetBits(s, pos * w, w)
  {
    OffsetIsProduct(w, pos);
    if pos == n - 1 {
      assert n * w == (n - 1) * w + w;
      LastWindow(s, w, pos * w, WNAF_BITS - pos * w);
    }
  }

  lemma AllWords(s: nat, w: nat)
    requires 0 < w && s < Pow2(WNAF_BITS)
    ensures Shr(s, Offset(w, SizeBits(WNAF_BITS, w))) == 0
  {
    SizeBitsBounds(WNAF_BITS, w);
    OffsetIsProduct(w, SizeBits(WNAF_BITS, w));
    LowOfHigh(s, WNAF_BITS, Offset(w, SizeBits(WNAF_BITS, w)));
  }

  /** Zeroes the words above the highest nonzero one and returns its position,
      or 0 when only word 0 is left. Nothing else is written. */
  method ClearAbove(wnaf: array<int>, at: nat, s: nat, w: nat) returns (maxPos: nat)
    requires 1 <= w <= 31 && s < Pow2(WNAF_BITS) && at + SizeBits(WNAF_BITS, w) <= wnaf.Length
    modifies wnaf
    ensures maxPos < SizeBits(WNAF_BITS, w) && Shr(s, Offset(w, maxPos + 1)) == 0
    ensures maxPos == 0 || GetBits(s, Offset(w, maxPos), w) != 0
    ensures forall i :: at + maxPos < i < at + SizeBits(WNAF_BITS, w) ==> wnaf[i] == 0
    ensures wnaf[..at + maxPos + 1] == old(wnaf[..at + maxPos + 1])
    ensures forall i :: at + SizeBits(WNAF_BITS, w) <= i < wnaf.Length ==> wnaf[i] == old(wnaf[i])
  {
    var n := SizeBits(WNAF_BITS, w);
    SizeBitsBounds(WNAF_BITS, w);
    AllWords(s, w);
    var pos := n - 1;
    while pos > 0
      invariant 0 <= pos < n && Shr(s, Offset(w, pos + 1)) == 0
      invariant wnaf[..at + pos + 1] == old(wnaf[..at + pos + 1])
      invariant forall i :: at + pos < i < at + n ==> wnaf[i] == 0
      invariant forall i :: at + n <= i < wnaf.Length ==> wnaf[i] == old(wnaf[i])
    {
      var val := Word(s, w, pos);
      if val != 0 {
        return pos;
      }
      wnaf[at + pos] := 0;
      SkipZeroWindow(s, Offset(w, pos), w);
      pos := pos - 1;
    }
    maxPos := pos;
  }

  /** The body of the main loop: takes in word `pos` and folds the digit below it. */
  method TakeWord(wnaf: array<int>, at: nat, n: nat, w: nat, pos: nat, val: nat)
    requires 1 <= pos < n && at + n <= wnaf.Length
    modifies wnaf
    ensures wnaf[at..at + n] == Folded(Taken(old(wnaf[at..at + n]), w, pos, val), w, pos)
    ensures wnaf[..at] == old(wnaf[..at])
    ensures forall i :: at + pos < i < wnaf.Length ==> wnaf[i] == old(wnaf[i])
  {
    ghost var d := wnaf[at..at + n];
    var p := at + pos;
    if val % 2 == 0 {
      wnaf[p - 1] := wnaf[p - 1] - Pow2(w);
      wnaf[p] := val + 1;
    } else {
      wnaf[p] := val;
    }
    d := Taken(d, w, pos, val);
    assert wnaf[at..at + n] == d;
    assert wnaf[p - 1] == d[pos - 1] && (pos >= 2 ==> wnaf[p - 2] == d[pos - 2]);
    // Only digits at previous positions are cleared: the next word needs this
    // one to be odd.
    if pos >= 2 && ((wnaf[p - 1] == 1 && wnaf[p - 2] < 0) || (wnaf[p - 1] == -1 && wnaf[p - 2] > 0)) {
      if wnaf[p - 1] == 1 {
        wnaf[p - 2] := wnaf[p - 2] + Pow2(w);
      } else {
        wnaf[p - 2] := wnaf[p - 2] - Pow2(w);
      }
      wnaf[p - 1] := 0;
    }
    assert wnaf[at..at + n] == Folded(d, w, pos);
  }

  /** The main loop, from word 1 to word maxPos. */
  method TakeWords(wnaf: array<int>, at: nat, n: nat, s: nat, w: nat, maxPos: nat, skew: int)
    requires 1 <= w <= 31 && s < Pow2(WNAF_BITS) && n == SizeBits(WNAF_BITS, w) && maxPos < n
    requires at + n <= wnaf.Length
    requires Partial(s, wnaf[at..at + n], w, 1, Offset(w, 1), skew)
    modifies wnaf
    ensures Partial(s, wnaf[at..at + n], w, maxPos + 1, Offset(w, maxPos + 1), skew)
    ensures forall i :: at + maxPos < i < wnaf.Length ==> wnaf[i] == old(wnaf[i])
    ensures wnaf[..at] == old(wnaf[..at])
  {
    ghost var d := wnaf[at..at + n];
    var pos := 1;
    while pos <= maxPos
      invariant 1 <= pos <= maxPos + 1 && |d| == n && wnaf[at..at + n] == d
      invariant wnaf[..at] == old(wnaf[..at])
      invariant forall i :: at + maxPos < i < wnaf.Length ==> wnaf[i] == old(wnaf[i])
      invariant Partial(s, d, w, pos, Offset(w, pos), skew)
    {
      var val := Word(s, w, pos);
      TakeWord(wnaf, at, n, w, pos, val);
      TakeAndFold(s, d, w, pos, skew, val);
      d := Folded(Taken(d, w, pos, val), w, pos);
      pos := pos + 1;
    }
  }

  method WriteZeros(wnaf: array<int>, at: nat, n: nat)
    requires at + n <= wnaf.Length
    modifies wnaf
    ensures forall j :: at <= j < at + n ==> wnaf[j] == 0
    ensures wnaf[..at] == old(wnaf[..at])
    ensures forall j :: at + n <= j < wnaf.Length ==> wnaf[j] == old(wnaf[j])
  {
    for i := at to at + n
      invariant wnaf[..at] == old(wnaf[..at])
      invariant forall j :: at <= j < i ==> wnaf[j] == 0
      invariant forall j :: at + n <= j < wnaf.Length ==> wnaf[j] == old(wnaf[j])
    {
      wnaf[i] := 0;
    }
  }

  /** Writes the digits of s to wnaf[at..], no more than the words of one row,
      and returns the skew. */
  method Recode(wnaf: array<int>, at: nat, s: Scalar, w: nat) returns (skew: int)
    requires 1 <= w <= 31 && at + SizeBits(WNAF_BITS, w) <= wnaf.Length
    modifies wnaf
    ensures Recoding(wnaf[at..at + SizeBits(WNAF_BITS, w)], s, w, skew)
    ensures wnaf[..at] == old(wnaf[..at])
    ensures forall i :: at + SizeBits(WNAF_BITS, w) <= i < wnaf.Length ==> wnaf[i] == old(wnaf[i])
  {
    var n := SizeBits(WNAF_BITS, w);
    SizeBitsBounds(WNAF_BITS, w);
    assert s < Pow2(WNAF_BITS) by { Pow2Values(); }
    if s == 0 {
      WriteZeros(wnaf, at, n);
      ZeroRecoding(wnaf[at..at + n], w);
      return 0;
    }

    skew := RecodeNonzero(wnaf, at, n, s, w);
  }

  /** The skew, the lowest digit, and zeros above the highest word that is not zero. */
  method WriteFirst(wnaf: array<int>, at: nat, n: nat, s: Scalar, w: nat) returns (skew: int, maxPos: nat)
    requires 1 <= w <= 31 && n == SizeBits(WNAF_BITS, w) && n >= 1 && at + n <= wnaf.Length
    requires s < Pow2(WNAF_BITS)
    modifies wnaf
    ensures maxPos < n && Shr(s, Offset(w, maxPos + 1)) == 0 && skew == if s % 2 == 0 then 1 else 0
    ensures forall i :: at + maxPos < i < at + n ==> wnaf[i] == 0
    ensures wnaf[..at] == old(wnaf[..at]) && Partial(s, wnaf[at..at + n], w, 1, w, skew)
    ensures forall i :: at + n <= i < wnaf.Length ==> wnaf[i] == old(wnaf[i])
  {
    skew := 0;
    if s % 2 == 0 {
      skew := 1;
    }
    wnaf[at] := GetBits(s, 0, w) + skew;
    maxPos := ClearAbove(wnaf, at, s, w);
    assert wnaf[..at + maxPos + 1][at] == wnaf[at] && wnaf[..at + maxPos + 1][..at] == wnaf[..at];
    FirstDigit(s, wnaf[at..at + n], w, skew);
  }

  method RecodeNonzero(wnaf: array<int>, at: nat, n: nat, s: Scalar, w: nat) returns (skew: int)
    requires 1 <= w <= 31 && n == SizeBits(WNAF_BITS, w) && n >= 1 && at + n <= wnaf.Length
    requires s != 0 && s < Pow2(WNAF_BITS)
    modifies wnaf
    ensures Recoding(wnaf[at..at + n], s, w, skew)
    ensures wnaf[..at] == old(wnaf[..at])
    ensures forall i :: at + n <= i < wnaf.Length ==> wnaf[i] == old(wnaf[i])
  {
    var maxPos;
    skew, maxPos := WriteFirst(wnaf, at, n, s, w);
    TakeWords(wnaf, at, n, s, w, maxPos, skew);
    ghost var d := wnaf[at..at + n];
    assert forall i :: maxPos < i < n ==> d[i] == 0;
    Finished(s, d, w, maxPos + 1, Offset(w, maxPos + 1), skew);
  }
}
