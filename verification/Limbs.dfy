/**
 Numbers as little-endian limbs of radix `b` kept in machine words of `w`
 values, and the carry pass that brings every limb but the last below the radix.
 */
module Limbs {
  import opened Arith

  function Value(s: seq<nat>, b: nat): nat {
    if s == [] then 0 else MulNat(b, Value(s[1..], b)) + s[0]
  }

  function MulNat(x: nat, y: nat): (r: nat)
    ensures r == x * y
  {
    MulMono(0, x, 0, y);
    x * y
  }

  /** b to the k. */
  function Power(b: nat, k: nat): nat {
    if k == 0 then 1 else MulNat(b, Power(b, k - 1))
  }

  /** Word addition. */
  function Add(x: nat, y: nat, w: nat): nat
    requires w > 0
  {
    (x + y) % w
  }

  /** The limbs after a carry c has been added at the bottom and every excess has
      been moved up: `t1 += t0 >> bits; t0 &= mask; ...`. */
  function Carried(s: seq<nat>, c: nat, b: nat, w: nat): (r: seq<nat>)
    requires b > 0 && w > 0
    ensures |r| == |s|
  {
    if s == [] then []
    else
      var a := Add(s[0], c, w);
      if |s| == 1 then [a] else [a % b] + Carried(s[1..], a / b, b, w)
  }

  /** What the pass loses to wrapping additions, in units of w. */
  ghost function Lost(s: seq<nat>, c: nat, b: nat, w: nat): nat
    requires b > 0 && w > 0
  {
    if s == [] then 0
    else
      var a := Add(s[0], c, w);
      var wraps := (s[0] + c) / w;
      if |s| == 1 then wraps else wraps + MulNat(b, Lost(s[1..], a / b, b, w))
  }

  lemma CarryStep(v: int, v': int, lost: int, t: int, c: int, wraps: int, a: int, q: int, m: int, b: int, w: int)
    requires t + c == wraps * w + a && a == q * b + m
    requires v' + w * lost == v + q
    ensures (b * v' + m) + w * (wraps + b * lost) == (b * v + t) + c
  {
    assert b * (v' + w * lost) == b * (v + q);
    assert b * (w * lost) == w * (b * lost);
    assert w * (wraps + b * lost) == w * wraps + w * (b * lost);
  }

  /** The pass keeps the value, less what it loses. */
  lemma {:induction false} CarriedValue(s: seq<nat>, c: nat, b: nat, w: nat)
    requires b > 0 && w > 0 && s != []
    ensures Value(Carried(s, c, b, w), b) + w * Lost(s, c, b, w) == Value(s, b) + c
    decreases |s|
  {
    var a := Add(s[0], c, w);
    DivMod(s[0] + c, w);
    if |s| == 1 {
      assert Carried(s, c, b, w)[1..] == [] && s[1..] == [];
    } else {
      DivMod(a, b);
      CarriedValue(s[1..], a / b, b, w);
      var r := Carried(s[1..], a / b, b, w);
      assert ([a % b] + r)[1..] == r;
      CarryStep(Value(s[1..], b), Value(r, b), Lost(s[1..], a / b, b, w), s[0], c, (s[0] + c) / w,
                a, a / b, a % b, b, w);
    }
  }

  lemma DivMod(x: nat, d: nat)
    requires d > 0
    ensures x == (x / d) * d + x % d && 0 <= x % d < d && 0 <= x / d
  {
  }

  /** Every limb but the last is below the radix. */
  lemma {:induction false} CarriedLimbs(s: seq<nat>, c: nat, b: nat, w: nat, i: nat)
    requires b > 0 && w > 0 && i < |s|
    ensures i < |s| - 1 ==> Carried(s, c, b, w)[i] < b
    ensures i == |s| - 1 ==> Carried(s, c, b, w)[i] < w
    decreases |s|
  {
    var a := Add(s[0], c, w);
    DivMod(s[0] + c, w);
    DivMod(a, b);
    if i > 0 {
      CarriedLimbs(s[1..], a / b, b, w, i - 1);
    }
  }

  ghost predicate Below(s: seq<nat>, b: nat) {
    forall i :: 0 <= i < |s| ==> s[i] < b
  }

  lemma {:induction false} ValueConcat(s: seq<nat>, t: seq<nat>, b: nat)
    ensures Value(s + t, b) == Value(s, b) + MulNat(Power(b, |s|), Value(t, b))
    decreases |s|
  {
    if s == [] {
      assert s + t == t;
    } else {
      ValueConcat(s[1..], t, b);
      assert (s + t)[1..] == s[1..] + t;
      Rearrange(b, Value(s[1..], b), Power(b, |s| - 1), Value(t, b));
    }
  }

  lemma Rearrange(b: int, x: int, p: int, y: int)
    ensures b * (x + p * y) == b * x + (b * p) * y
  {
    assert b * (p * y) == (b * p) * y;
  }

  lemma OnesStep(b: int, p: int, v: int, t: int)
    requires b > 0 && 0 <= v < p && 0 <= t < b
    ensures 0 <= b * v + t < b * p
    ensures b * v + t == b * p - 1 <==> v == p - 1 && t == b - 1
  {
    MulMono(v, p - 1, b, b);
    assert (p - 1) * b == b * p - b;
    if v < p - 1 {
      MulMono(v, p - 2, b, b);
      assert (p - 2) * b == b * p - 2 * b;
    }
  }

  /** Limbs below the radix with a top limb below `top` are worth less than
      b^(n-1) * top, and exactly one less when all of them are at their largest. */
  lemma {:induction false} AllOnes(s: seq<nat>, b: nat, top: nat)
    requires b > 0 && s != [] && Below(s[..|s| - 1], b) && s[|s| - 1] < top
    ensures Value(s, b) < MulNat(Power(b, |s| - 1), top)
    ensures Value(s, b) == MulNat(Power(b, |s| - 1), top) - 1
       <==> (forall i :: 0 <= i < |s| - 1 ==> s[i] == b - 1) && s[|s| - 1] == top - 1
    decreases |s|
  {
    if |s| == 1 {
      assert s[1..] == [];
    } else {
      var r := s[1..];
      assert r[..|r| - 1] == s[..|s| - 1][1..];
      AllOnes(r, b, top);
      var p := MulNat(Power(b, |r| - 1), top);
      assert b * p == MulNat(Power(b, |s| - 1), top) by { Assoc3(b, Power(b, |r| - 1), top); }
      assert s[0] == s[..|s| - 1][0];
      OnesStep(b, p, Value(r, b), s[0]);
      assert forall i :: 1 <= i < |s| ==> s[i] == r[i - 1];
    }
  }

  lemma Assoc3(x: int, y: int, z: int)
    ensures x * (y * z) == (x * y) * z
  {
  }

  lemma {:induction false} ValueUpdate(s: seq<nat>, i: nat, v: nat, b: nat)
    requires i < |s|
    ensures Value(s[i := v], b) == Value(s, b) + Power(b, i) * (v - s[i])
    decreases |s|
  {
    if i == 0 {
      assert s[0 := v][1..] == s[1..];
    } else {
      ValueUpdate(s[1..], i - 1, v, b);
      assert s[i := v][1..] == s[1..][i - 1 := v];
      Rearrange(b, Value(s[1..], b), Power(b, i - 1), v - s[i]);
    }
  }

  lemma QuotientBound(a: nat, b: nat, w: nat)
    requires b > 0 && a < w
    ensures a / b <= w / b
  {
    DivMod(a, b);
    DivMod(w, b);
    FewerTimes(a / b, w / b, b);
  }

  lemma FewerTimes(q: nat, p: nat, b: nat)
    requires q * b < p * b + b
    ensures q <= p
  {
    if q > p {
      MulMono(p + 1, q, b, b);
    }
  }

  /** The top limb gains at most the largest carry. */
  lemma {:induction false} CarriedTop(s: seq<nat>, c: nat, b: nat, w: nat)
    requires b > 0 && w > 0 && s != [] && (|s| == 1 ==> c <= w / b)
    requires s[|s| - 1] + w / b < w
    ensures Carried(s, c, b, w)[|s| - 1] <= s[|s| - 1] + w / b
    decreases |s|
  {
    if |s| == 1 {
      ModSmall(s[0] + c, w);
    } else {
      var a := Add(s[0], c, w);
      DivMod(s[0] + c, w);
      QuotientBound(a, b, w);
      CarriedTop(s[1..], a / b, b, w);
    }
  }

  /** Nothing is lost where every limb leaves room for a carry. */
  lemma {:induction false} NothingLost(s: seq<nat>, c: nat, b: nat, w: nat)
    requires b > 0 && w > 0 && c <= w / b
    requires forall i :: 0 <= i < |s| ==> s[i] + w / b < w
    ensures Lost(s, c, b, w) == 0
    decreases |s|
  {
    if s != [] {
      ModSmall(s[0] + c, w);
      var a := s[0] + c;
      QuotientBound(a, b, w);
      if |s| > 1 {
        NothingLost(s[1..], a / b, b, w);
      }
    }
  }

  /** What can be lost below the top limb. */
  lemma {:induction false} LostBound(s: seq<nat>, c: nat, b: nat, w: nat)
    requires b >= 2 && w >= 2 && s != [] && Below(s, w) && c < w
    requires |s| == 1 ==> c <= w / b
    requires s[|s| - 1] + w / b < w
    ensures MulNat(b - 1, Lost(s, c, b, w)) < Power(b, |s| - 1)
    decreases |s|
  {
    DivMod(s[0] + c, w);
    if |s| == 1 {
      ModSmall(s[0] + c, w);
    } else {
      var a := Add(s[0], c, w);
      QuotientBound(a, b, w);
      LessThanWord(a, b, w);
      LostBound(s[1..], a / b, b, w);
      OneWrap(s[0], c, w);
      LostStep(b, Lost(s[1..], a / b, b, w), Power(b, |s| - 2), (s[0] + c) / w);
    }
  }

  lemma LessThanWord(a: nat, b: nat, w: nat)
    requires b >= 2 && a < w
    ensures a / b < w
  {
    DivMod(a, b);
    MulMono(a / b, a / b, 1, b);
  }

  lemma OneWrap(t: nat, c: nat, w: nat)
    requires t < w && c < w
    ensures (t + c) / w <= 1
  {
    DivMod(t + c, w);
    if (t + c) / w >= 2 {
      MulMono(2, (t + c) / w, w, w);
    }
  }

  lemma LostStep(b: int, l: int, p: int, wraps: int)
    requires b >= 2 && 0 <= (b - 1) * l < p && 0 <= wraps <= 1
    ensures (b - 1) * (wraps + b * l) < b * p
  {
    MulMono((b - 1) * l, p - 1, b, b);
    assert (p - 1) * b == b * p - b;
    assert (b - 1) * (wraps + b * l) == (b - 1) * wraps + ((b - 1) * l) * b;
  }
}
