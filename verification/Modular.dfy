/**
 Arithmetic modulo a number.
 */
module Modular {
  import opened Arith

  /** s plus b times a, reduced (AddTimesMod). Written without the product, so that
      proofs see products of residues through that lemma alone. */
  function AddTimes(a: int, b: nat, s: int, m: nat): (r: nat)
    requires m > 0
    ensures r < m
    decreases b
  {
    if b == 0 then s % m else AddTimes(a, b - 1, s + a, m)
  }

  lemma {:induction false} AddTimesMod(a: int, b: nat, s: int, m: nat)
    requires m > 0
    ensures AddTimes(a, b, s, m) == (s + a * b) % m
    decreases b
  {
    if b > 0 {
      AddTimesMod(a, b - 1, s + a, m);
      assert a * b == a + a * (b - 1);
    }
  }

  /** a and b are alike as factors; that is, congruent modulo m (AlikeMod). */
  ghost predicate Alike(a: int, b: int, m: nat)
    requires m > 0
  {
    forall n: nat :: AddTimes(a, n, 0, m) == AddTimes(b, n, 0, m)
  }

  lemma AlikeMod(a: int, b: int, m: nat)
    requires m > 0
    ensures Alike(a, b, m) <==> (a - b) % m == 0
  {
    if (a - b) % m == 0 {
      forall n: nat ensures AddTimes(a, n, 0, m) == AddTimes(b, n, 0, m) {
        AddTimesMod(a, n, 0, m);
        AddTimesMod(b, n, 0, m);
        TimesMod(a, b, n, m);
        SameRemainder(a * n, b * n, m);
      }
    } else if Alike(a, b, m) {
      assert AddTimes(a, 1, 0, m) == AddTimes(b, 1, 0, m);
      AddTimesMod(a, 1, 0, m);
      AddTimesMod(b, 1, 0, m);
      SameRemainder(a, b, m);
    }
  }

  lemma AlikeTimes(a: int, b: int, c: int, m: nat)
    requires m > 0 && Alike(a, b, m)
    ensures Alike(a * c, b * c, m) && Alike(c * a, c * b, m)
  {
    AlikeMod(a, b, m);
    TimesMod(a, b, c, m);
    AlikeMod(a * c, b * c, m);
    AlikeMod(c * a, c * b, m);
  }

  lemma AlikeSum(a: int, b: int, c: int, d: int, m: nat)
    requires m > 0 && Alike(a, b, m) && Alike(c, d, m)
    ensures Alike(a + c, b + d, m) && Alike(a - c, b - d, m)
  {
    AlikeMod(a, b, m);
    AlikeMod(c, d, m);
    SumMod(a, b, c, d, m);
    AlikeMod(a + c, b + d, m);
    AlikeMod(a - c, b - d, m);
  }

  lemma SameRemainder(a: int, b: int, m: int)
    requires m > 0
    ensures a % m == b % m <==> (a - b) % m == 0
  {
    if (a - b) % m == 0 {
      ModShift(b, (a - b) / m, m);
    } else if a % m == b % m {
      assert a == (a / m) * m + a % m && b == (b / m) * m + b % m;
      assert (a / m - b / m) * m == (a / m) * m - (b / m) * m;
      DivModUnique(a - b, m, a / m - b / m, 0);
    }
  }

  lemma TimesMod(a: int, b: int, c: int, n: int)
    requires n > 0 && (a - b) % n == 0
    ensures (a * c - b * c) % n == 0 && (c * a - c * b) % n == 0
  {
    var q := (a - b) / n;
    assert a - b == q * n;
    assert a * c - b * c == (a - b) * c;
    assert (q * n) * c == (q * c) * n;
    DivModUnique(a * c - b * c, n, q * c, 0);
    assert c * a == a * c && c * b == b * c;
  }

  lemma SumMod(a: int, b: int, c: int, d: int, n: int)
    requires n > 0 && (a - b) % n == 0 && (c - d) % n == 0
    ensures ((a + c) - (b + d)) % n == 0 && ((a - c) - (b - d)) % n == 0
  {
    var p, q := (a - b) / n, (c - d) / n;
    assert a - b == p * n && c - d == q * n;
    assert (p + q) * n == p * n + q * n && (p - q) * n == p * n - q * n;
    DivModUnique((a + c) - (b + d), n, p + q, 0);
    DivModUnique((a - c) - (b - d), n, p - q, 0);
  }

  lemma RemainderMod(x: int, n: int)
    requires n > 0
    ensures (x % n - x) % n == 0
  {
    DivModUnique(x % n - x, n, -(x / n), 0);
  }

  lemma ModMul(a: int, b: int, n: int)
    requires n > 0
    ensures ((a % n) * b) % n == (a * b) % n && (b * (a % n)) % n == (b * a) % n
  {
    var q := a / n;
    assert a == q * n + a % n;
    assert a * b == (q * n) * b + (a % n) * b;
    assert (q * n) * b == (q * b) * n;
    ModShift((a % n) * b, q * b, n);
    assert b * (a % n) == (a % n) * b && b * a == a * b;
  }

  lemma ModShift(x: int, k: int, n: int)
    requires n > 0
    ensures (x + k * n) % n == x % n
  {
    assert x == (x / n) * n + x % n;
    assert (x / n + k) * n == (x / n) * n + k * n;
    DivModUnique(x + k * n, n, x / n + k, x % n);
  }
}
