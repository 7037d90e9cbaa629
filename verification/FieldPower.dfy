/**
 Square roots and inverses modulo p by fixed chains of squarings and
 multiplications, `secp256k1_fe_sqrt` and `secp256k1_fe_inv`.
 */
module FieldPower {
  import opened Arith
  import opened Modular
  import opened FieldReduce

  /** `secp256k1_fe_mul` on residues, see FMulMod. */
  function FMul(a: int, b: nat): (r: nat) {
    AddTimes(a, b, 0, P)
  }

  lemma FMulMod(a: int, b: nat)
    ensures FMul(a, b) == (a * b) % P
  {
    AddTimesMod(a, b, 0, P);
  }

  /** The e-th power of a. */
  ghost function Pow(a: int, e: nat): (r: nat)
    ensures r < P
  {
    if e == 0 then 1 else FMul(a, Pow(a, e - 1))
  }

  /** Fermat's theorem for p: what p being prime is needed for. */
  ghost predicate Fermat() {
    forall a: int {:trigger FermatAt(a)} :: FermatAt(a)
  }

  ghost predicate FermatAt(a: int) {
    a % P != 0 ==> Pow(a, P - 1) == 1
  }

  lemma FMulAssoc(a: int, b: nat, c: nat)
    ensures FMul(FMul(a, b), c) == FMul(a, FMul(b, c))
  {
    FMulMod(a, b);
    FMulMod(b, c);
    FMulMod(FMul(a, b), c);
    FMulMod(a, FMul(b, c));
    ModMul(a * b, c, P);
    ModMul(b * c, a, P);
    assert (a * b) * c == a * (b * c);
  }

  lemma FMulComm(a: nat, b: nat)
    ensures FMul(a, b) == FMul(b, a)
  {
    FMulMod(a, b);
    FMulMod(b, a);
    assert a * b == b * a;
  }

  lemma FMulReduced(a: int, b: nat)
    ensures FMul(a % P, b) == FMul(a, b) && FMul(a, b % P) == FMul(a, b)
  {
    FMulMod(a % P, b);
    FMulMod(a, b % P);
    FMulMod(a, b);
    ModMul(a, b, P);
    ModMul(b, a, P);
  }

  lemma FMulOne(a: nat)
    requires a < P
    ensures FMul(1, a) == a && FMul(a, 1) == a
  {
    FMulMod(1, a);
    FMulMod(a, 1);
    ModSmall(a, P);
  }

  lemma {:induction false} PowAdd(a: int, e: nat, f: nat)
    ensures Pow(a, e + f) == FMul(Pow(a, e), Pow(a, f))
    decreases e
  {
    if e == 0 {
      FMulOne(Pow(a, f));
    } else {
      PowAdd(a, e - 1, f);
      FMulAssoc(a, Pow(a, e - 1), Pow(a, f));
    }
  }

  lemma {:induction false} PowOfProduct(a: int, b: nat, e: nat)
    ensures Pow(FMul(a, b), e) == FMul(Pow(a, e), Pow(b, e))
    decreases e
  {
    if e > 0 {
      PowOfProduct(a, b, e - 1);
      var x, y := Pow(a, e - 1), Pow(b, e - 1);
      FMulAssoc(a, b, FMul(x, y));
      FMulAssoc(b, x, y);
      FMulComm(b, x);
      FMulAssoc(x, b, y);
      FMulAssoc(a, x, FMul(b, y));
    } else {
      FMulOne(1);
    }
  }

  /** `for (j = 0; j < n; j++) fe_sqr(&x, &x)`. */
  method SqrTimes(x: nat, n: nat, ghost a: int, ghost e: nat) returns (r: nat, ghost f: nat)
    requires x == Pow(a, e)
    ensures r == Pow(a, f) && f == Pow2(n) * e
  {
    r, f := x, e;
    for j := 0 to n
      invariant r == Pow(a, f) && f == Pow2(j) * e
    {
      PowAdd(a, f, f);
      Double(Pow2(j), e);
      r := FMul(r, r);
      f := f + f;
    }
  }

  method Product(x: nat, y: nat, ghost a: int, ghost e: nat, ghost f: nat) returns (r: nat, ghost g: nat)
    requires x == Pow(a, e) && y == Pow(a, f)
    ensures r == Pow(a, g) && g == e + f
  {
    PowAdd(a, e, f);
    r, g := FMul(x, y), e + f;
  }

  /** Squares x n times and multiplies by y: the exponents e and f of a become 2^n e + f. */
  method Shifted(x: nat, n: nat, y: nat, ghost a: int, ghost e: nat, ghost f: nat, ghost w: nat)
      returns (r: nat, ghost g: nat)
    requires x == Pow(a, e) && y == Pow(a, f) && w == Pow2(n)
    ensures r == Pow(a, g) && g == w * e + f
  {
    var t, h := SqrTimes(x, n, a, e);
    r, g := Product(t, y, a, h, f);
  }

  /** 2^n - 1 for the block lengths of the chains. */
  const ONES22: nat := 0x3fffff
  const ONES44: nat := 0xfffffffffff
  const ONES88: nat := 0xffffffffffffffffffffff
  const ONES176: nat := 0xffffffffffffffffffffffffffffffffffffffffffff
  const ONES220: nat := 0xfffffffffffffffffffffffffffffffffffffffffffffffffffffff
  const ONES223: nat := 0x7fffffffffffffffffffffffffffffffffffffffffffffffffffffff

  lemma Widths()
    ensures Pow2(2) == 4 && Pow2(3) == 8 && Pow2(5) == 32 && Pow2(6) == 64 && Pow2(11) == 0x800
    ensures Pow2(22) == 0x40_0000 && Pow2(23) == 0x80_0000
    ensures Pow2(44) == 0x1000_0000_0000 && Pow2(88) == 0x100_0000_0000_0000_0000_0000
  {
    Pow2Square(11, 0x800, 22, 0x40_0000);
    Pow2Square(22, 0x40_0000, 44, 0x1000_0000_0000);
    Pow2Square(44, 0x1000_0000_0000, 88, 0x100_0000_0000_0000_0000_0000);
    assert Pow2(23) == 2 * Pow2(22);
  }

  /** The part of the chains that square root and inverse share. */
  method Blocks(a: nat) returns (x2: nat, x22: nat, x223: nat, ghost e2: nat, ghost e22: nat, ghost e223: nat)
    requires a < P
    ensures x2 == Pow(a, e2) && e2 == 3
    ensures x22 == Pow(a, e22) && e22 == ONES22
    ensures x223 == Pow(a, e223) && e223 == ONES223
  {
    Widths();
    ghost var e := 1;
    FMulOne(a);
    assert a == Pow(a, e);
    x2, e2 := Product(a, a, a, e, e);
    x2, e2 := Product(x2, a, a, e2, e);
    var x3, e3 := Shifted(x2, 1, a, a, e2, e, 2);
    var x6, e6 := Shifted(x3, 3, x3, a, e3, e3, 8);
    var x9, e9 := Shifted(x6, 3, x3, a, e6, e3, 8);
    var x11, e11 := Shifted(x9, 2, x2, a, e9, e2, 4);
    x22, e22 := Shifted(x11, 11, x11, a, e11, e11, 0x800);
    x223, e223 := LongBlocks(a, x3, x22, e3, e22);
  }

  method LongBlocks(a: nat, x3: nat, x22: nat, ghost e3: nat, ghost e22: nat) returns (x223: nat, ghost e223: nat)
    requires x3 == Pow(a, e3) && e3 == 7 && x22 == Pow(a, e22) && e22 == ONES22
    ensures x223 == Pow(a, e223) && e223 == ONES223
  {
    Widths();
    var x44, e44 := Shifted(x22, 22, x22, a, e22, e22, 0x40_0000);
    assert e44 == ONES44;
    var x88, e88 := Shifted(x44, 44, x44, a, e44, e44, 0x1000_0000_0000);
    assert e88 == ONES88;
    var x176, e176 := Shifted(x88, 88, x88, a, e88, e88, 0x100_0000_0000_0000_0000_0000);
    assert e176 == ONES176;
    var x220, e220 := Shifted(x176, 44, x44, a, e176, e44, 0x1000_0000_0000);
    assert e220 == ONES220;
    x223, e223 := Shifted(x220, 3, x3, a, e220, e3, 8);
  }

  /** The power (p + 1) / 4. */
  method RootPower(a: nat) returns (r: nat, ghost e: nat)
    requires a < P
    ensures r == Pow(a, e) && 4 * e == P + 1
  {
    Widths();
    var x2, x22, x223, e2, e22, e223 := Blocks(a);
    var t1;
    t1, e := Shifted(x223, 23, x22, a, e223, e22, 0x80_0000);
    t1, e := Shifted(t1, 6, x2, a, e, e2, 64);
    r, e := SqrTimes(t1, 2, a, e);
  }

  /** `secp256k1_fe_inv`: the power p - 2. */
  method InversePower(a: nat) returns (r: nat, ghost e: nat)
    requires a < P
    ensures r == Pow(a, e) && e == P - 2
  {
    Widths();
    var x2, x22, x223, e2, e22, e223 := Blocks(a);
    ghost var one := 1;
    FMulOne(a);
    assert a == Pow(a, one);
    var t1;
    t1, e := Shifted(x223, 23, x22, a, e223, e22, 0x80_0000);
    t1, e := Shifted(t1, 5, a, a, e, one, 32);
    t1, e := Shifted(t1, 3, x2, a, e, e2, 8);
    t1, e := SqrTimes(t1, 2, a, e);
    r, e := Product(a, t1, a, one, e);
  }

  // ---- what the powers are ----

  lemma {:induction false} PowOfZero(e: nat)
    requires e > 0
    ensures Pow(0, e) == 0
  {
    FMulMod(0, Pow(0, e - 1));
    assert Pow(0, e) == FMul(0, Pow(0, e - 1));
  }

  lemma FermatFor(a: nat)
    requires Fermat() && 0 < a < P
    ensures Pow(a, P - 1) == 1
  {
    ModSmall(a, P);
    assert FermatAt(a);
  }

  /** One more than the order of the group of units is a square. */
  lemma AroundTwice(y: nat, e: nat)
    requires Fermat() && 0 < y < P && e == P + 1
    ensures Pow(y, e) == FMul(y, y)
  {
    PowAdd(y, P - 1, 2);
    FermatFor(y);
    FMulOne(Pow(y, 2));
    FMulOne(y);
    assert Pow(y, 1) == FMul(y, Pow(y, 0)) == y;
    assert Pow(y, 2) == FMul(y, Pow(y, 1));
  }

  /** A number that has a root gets one. */
  lemma RootWorks(a: nat, y: nat, r: nat, e: nat)
    requires Fermat() && y < P && FMul(y, y) == a && r == Pow(a, e) && 4 * e == P + 1
    ensures FMul(r, r) == a
  {
    if y == 0 {
      PowOfZero(e);
    } else {
      PowOfProduct(y, y, e);
      PowAdd(y, e, e);
      PowAdd(y, e + e, e + e);
      AroundTwice(y, 4 * e);
    }
  }

  lemma InverseWorks(a: nat, e: nat)
    requires Fermat() && 0 < a < P && e == P - 2
    ensures FMul(a, Pow(a, e)) == 1
  {
    FermatFor(a);
    assert Pow(a, e + 1) == FMul(a, Pow(a, e));
  }

  lemma NoZeroDivisors(u: nat, v: nat)
    requires Fermat() && u < P && v < P && FMul(u, v) == 0
    ensures u == 0 || v == 0
  {
    if u != 0 {
      var e := P - 2;
      InverseWorks(u, e);
      FMulComm(u, Pow(u, e));
      FMulAssoc(Pow(u, e), u, v);
      FMulOne(v);
      FMulMod(Pow(u, e), 0);
    }
  }

  function FNeg(a: nat): (r: nat)
    requires a < P
    ensures r < P
  {
    if a == 0 then 0 else P - a
  }

  lemma SquaresMod(r: int, y: int, z: int, q: int, i: int, j: int, m: int, n: int)
    requires n > 0 && z == q * n - y && r * r == i * n + m && y * y == j * n + m
    ensures ((r + y) * (r + z)) % n == 0
  {
    var t := r + y;
    assert t * (r - y) == r * r - y * y;
    assert t * (r + z) == t * (r - y) + t * (q * n);
    assert t * (q * n) == (t * q) * n;
    assert (i - j) * n == i * n - j * n;
    assert (i - j + t * q) * n == (i - j) * n + (t * q) * n;
    DivModUnique(t * (r + z), n, i - j + t * q, 0);
  }

  lemma DifferenceOfSquares(r: nat, y: nat)
    requires r < P && y < P && FMul(r, r) == FMul(y, y)
    ensures FMul((r + y) % P, (r + FNeg(y)) % P) == 0
  {
    FMulReduced(r + y, (r + FNeg(y)) % P);
    FMulReduced(r + y, r + FNeg(y));
    var i, j := (r * r) / P, (y * y) / P;
    FMulMod(r, r);
    FMulMod(y, y);
    FMulMod(r + y, r + FNeg(y));
    SquaresMod(r, y, FNeg(y), if y == 0 then 0 else 1, i, j, FMul(y, y), P);
  }

  /** A number has at most two roots, each the negative of the other. */
  lemma TwoRoots(r: nat, y: nat)
    requires Fermat() && r < P && y < P && FMul(r, r) == FMul(y, y)
    ensures r == y || r == FNeg(y)
  {
    DifferenceOfSquares(r, y);
    var u, v := (r + y) % P, (r + FNeg(y)) % P;
    NoZeroDivisors(u, v);
    if u == 0 {
      SumIsMultiple(r, y);
    } else {
      SumIsMultiple(r, FNeg(y));
    }
  }

  lemma SumIsMultiple(r: nat, y: nat)
    requires r < P && y < P && (r + y) % P == 0
    ensures r == FNeg(y)
  {
    if r + y < P {
      ModSmall(r + y, P);
    } else {
      DivModUnique(r + y, P, 1, r + y - P);
    }
  }

  lemma NegatedSquare(y: nat)
    requires y < P
    ensures FMul(FNeg(y), FNeg(y)) == FMul(y, y)
  {
    if y != 0 {
      FMulMod(y, y);
      FMulMod(P - y, P - y);
      assert (P - y) * (P - y) == y * y + (P - 2 * y) * P;
      ModShift(y * y, P - 2 * y, P);
    }
  }

  // ---- the functions ----

  /** The power is a root of a number or of its negative. */
  lemma RootOrNegative(a: nat, r: nat, e: nat)
    requires Fermat() && a < P && r == Pow(a, e) && 4 * e == P + 1
    ensures FMul(r, r) == a || FMul(r, r) == FNeg(a)
  {
    if a == 0 {
      PowOfZero(e);
      FMulMod(0, 0);
    } else {
      var h := (P - 1) / 2;
      var t := Pow(a, h);
      PowAdd(a, e, e);
      assert Pow(a, h + 1) == FMul(a, t);
      PowAdd(a, h, h);
      FermatFor(a);
      FMulOne(1);
      TwoRoots(t, 1);
      FMulOne(a);
      TimesMinusOne(a);
    }
  }

  lemma TimesMinusOne(a: nat)
    requires 0 < a < P
    ensures FMul(a, P - 1) == FNeg(a)
  {
    FMulMod(a, P - 1);
    DivModUnique(a * (P - 1), P, a - 1, P - a);
  }

  /** The root that is returned is itself a square, since (p + 1) / 4 is even. */
  lemma RootIsSquare(a: nat, r: nat, e: nat)
    requires r == Pow(a, e) && 4 * e == P + 1
    ensures exists w: nat :: w < P && FMul(w, w) == r
  {
    var w := Pow(a, e / 2);
    PowAdd(a, e / 2, e / 2);
    assert FMul(w, w) == r;
  }

  /** `secp256k1_fe_sqrt`: a root where there is one, and otherwise one of the
      negative. What it returns is itself a square. */
  method Sqrt(a: nat) returns (ok: bool, r: nat)
    requires a < P && Fermat()
    ensures r < P && (ok <==> FMul(r, r) == a)
    ensures !ok ==> FMul(r, r) == FNeg(a)
    ensures exists w: nat :: w < P && FMul(w, w) == r
    ensures forall y: nat :: y < P && FMul(y, y) == a ==> ok && (r == y || r == FNeg(y))
  {
    ghost var e;
    r, e := RootPower(a);
    ok := FMul(r, r) == a;
    RootIsSquare(a, r, e);
    RootOrNegative(a, r, e);
    forall y: nat | y < P && FMul(y, y) == a ensures ok && (r == y || r == FNeg(y)) {
      RootWorks(a, y, r, e);
      TwoRoots(r, y);
    }
  }

  /** `secp256k1_fe_inv`: zero for zero. */
  method Inverse(a: nat) returns (r: nat)
    requires a < P && Fermat()
    ensures r < P && (if a == 0 then r == 0 else FMul(a, r) == 1)
  {
    ghost var e;
    r, e := InversePower(a);
    if a == 0 {
      PowOfZero(e);
    } else {
      InverseWorks(a, e);
    }
  }
}
