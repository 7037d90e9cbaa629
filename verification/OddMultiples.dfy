/**
 Tables of the odd multiples of a point, and their lookup.
 */
module OddMultiples {
  import opened Arith
  import opened Digits
  import opened Scalars
  import opened CurveGroup

  /** ECMULT_TABLE_SIZE. */
  function TableSize(w: nat): (n: nat)
    requires w >= 2
    ensures n >= 1
  {
    Pow2(w - 2)
  }

  ghost predicate IsTable<P(!new)>(g: Group<P>, pre: seq<P>, a: P) {
    forall i :: 0 <= i < |pre| ==> pre[i] == Mul(g, 2 * i + 1, a)
  }

  /** `secp256k1_ecmult_odd_multiples_table` and the passes that bring its result
      to one denominator, as operations on points: [a, 3a, 5a, ...]. */
  method Build<P(==, !new)>(g: Group<P>, pre: array<P>, at: nat, n: nat, a: P)
    requires Laws(g) && 1 <= n && at + n <= pre.Length
    modifies pre
    ensures IsTable(g, pre[at..at + n], a)
    ensures pre[..at] == old(pre[..at])
    ensures forall j :: at + n <= j < pre.Length ==> pre[j] == old(pre[j])
  {
    var d := g.add(a, a);
    pre[at] := a;
    MulSmall(g, a);
    for i := 1 to n
      invariant pre[..at] == old(pre[..at])
      invariant forall j :: at + n <= j < pre.Length ==> pre[j] == old(pre[j])
      invariant IsTable(g, pre[at..at + i], a)
    {
      assert pre[at..at + i][i - 1] == pre[at + i - 1];
      MulAdd(g, 2 * i - 1, 2, a);
      pre[at + i] := g.add(pre[at + i - 1], d);
      assert pre[at..at + i + 1] == pre[at..at + i] + [pre[at + i]];
    }
  }

  /** ECMULT_TABLE_GET_GE and its storage variant: an odd digit selects an entry
      or the negative of one. */
  function Get<P(==, !new)>(g: Group<P>, pre: seq<P>, n: int, w: nat): P
    requires w >= 2 && |pre| == TableSize(w) && Odd(n) && Abs(n) < Pow2(w - 1)
  {
    assert Pow2(w - 1) == 2 * Pow2(w - 2);
    if n > 0 then pre[(n - 1) / 2] else g.neg(pre[(-n - 1) / 2])
  }

  lemma GetIsMultiple<P(!new)>(g: Group<P>, pre: seq<P>, n: int, w: nat, a: P)
    requires Laws(g) && w >= 2 && |pre| == TableSize(w) && Odd(n) && Abs(n) < Pow2(w - 1)
    requires IsTable(g, pre, a)
    ensures Get(g, pre, n, w) == Mul(g, n, a)
  {
    assert Pow2(w - 1) == 2 * Pow2(w - 2);
    if n < 0 {
      MulNeg(g, -n, a);
    }
  }
}
