/**
 Multiplication and squaring modulo p on five 52-bit limbs: the register steps
 of the assembly versions of `secp256k1_fe_mul_inner` and `secp256k1_fe_sqr_inner`.
 */
module Field5x52 {
  import opened Arith
  import opened Bits
  import opened Limbs
  import opened FieldReduce
  import opened Convolution

  const B52: nat := 0x10_0000_0000_0000
  const R: nat := 0x1000003D10

  /** 2^260, which is R modulo p. */
  const Q: nat := 16 * TWO256

  /** Two registers taken together. */
  type u128 = x: int | 0 <= x < 0x1_0000_0000_0000_0000_0000_0000_0000_0000

  /** Below this the shift by 52 leaves one register's worth. */
  const ROOM: nat := 0x10_0000_0000_0000_0000_0000_0000_0000

  /** `shrd $52`: only the low register of the shifted pair is kept. */
  function Shift52(x: u128): u64 {
    (x / B52) % U64
  }

  /** `add` on the low register alone, the carry dropped. */
  function AddLow(x: u64, y: u64): u64 {
    (x + y) % U64
  }

  /** The shift loses nothing where the pair has room. */
  lemma ShiftKeeps(x: u128)
    requires x < ROOM
    ensures x == x % B52 + B52 * Shift52(x)
  {
    ModSmall(x / B52, U64);
  }

  /** Column sums of operands of magnitude 8. */
  ghost predicate ColumnSums(p: seq<nat>) {
    && |p| == 9 && p[8] <= 0x1_0000_0000_0000_0000_0000_0000_00
    && (forall k :: 0 <= k < 9 ==> p[k] <= 0x5_0000_0000_0000_0000_0000_0000_0000)
    && p[7] <= 0x20_0000_0000_0000_0000_0000_0000_00
  }

  /** d = p3; c = p8; d += (c & M) * R; c >>= 52; t3 = d & M; d >>= 52. */
  method First(p3: u128, p8: u128) returns (t3: u64, c: u64, d: u64, ghost k: int)
    requires p3 <= 0x5_0000_0000_0000_0000_0000_0000_0000 && p8 <= 0x1_0000_0000_0000_0000_0000_0000_00
    ensures t3 < B52 && c <= 0x10_0000_0000_0000 && d < 0x8000_0000_0000_0000
    ensures t3 + B52 * (d + Q * c) + P * k == p3 + Q * p8
  {
    var d0: u128 := p3 + (p8 % B52) * R;
    c := Shift52(p8);
    t3 := d0 % B52;
    d := Shift52(d0);
    ShiftKeeps(p8);
    ShiftKeeps(d0);
    k := 16 * (p8 % B52);
  }

  /** d += p4; d += c * R; t4 = d & M; d >>= 52; tx = t4 >> 48; t4 &= M >> 4. */
  method Second(p4: u128, c: u64, d: u64) returns (t4: u64, tx: u64, d': u64, ghost k: int)
    requires p4 <= 0x5_0000_0000_0000_0000_0000_0000_0000 && c <= 0x10_0000_0000_0000 && d < 0x8000_0000_0000_0000
    ensures t4 < 0x1_0000_0000_0000 && tx < 16 && d' < 0x8000_0000_0000_0000
    ensures t4 + 0x1_0000_0000_0000 * tx + B52 * d' + P * k == p4 + d + Q * c
  {
    var d0: u128 := d + p4 + c * R;
    t4 := d0 % B52;
    d' := Shift52(d0);
    ShiftKeeps(d0);
    tx := t4 / 0x1_0000_0000_0000;
    t4 := t4 % 0x1_0000_0000_0000;
    k := 16 * c;
  }

  /** `(u << 4) | tx`. */
  lemma Joined(u: nat, tx: nat)
    requires u < B52 && tx < 16
    ensures Or(16 * u, tx) == 16 * u + tx
  {
    OrCommutes(16 * u, tx);
    assert Pow2(4) == 16;
    OrIsSum(tx, u, 4);
  }

  lemma {:induction false} OrCommutes(x: nat, y: nat)
    ensures Or(x, y) == Or(y, x)
    decreases x + y
  {
    if x != 0 || y != 0 {
      OrCommutes(x / 2, y / 2);
    }
  }

  /** c = p0; d += p5; u0 = d & M; d >>= 52; u0 = (u0 << 4) | tx; c += u0 * (R >> 4);
      r[0] = c & M; c >>= 52. */
  method Third(p0: u128, p5: u128, d: u64, tx: u64) returns (r0: u64, c: u64, d': u64, ghost k: int)
    requires p0 <= 0x5_0000_0000_0000_0000_0000_0000_0000 && p5 <= 0x5_0000_0000_0000_0000_0000_0000_0000
    requires d < 0x8000_0000_0000_0000 && tx < 16
    ensures r0 < B52 && c < 0x8000_0000_0000_0000 && d' < 0x8000_0000_0000_0000
    ensures r0 + B52 * (c + Q * d') + P * k == p0 + TWO256 * tx + Q * (d + p5)
  {
    var d0: u128 := d + p5;
    var u0: u64 := d0 % B52;
    d' := Shift52(d0);
    ShiftKeeps(d0);
    Joined(u0, tx);
    u0 := Or(16 * u0, tx);
    var c0: u128 := p0 + u0 * (R / 16);
    r0 := c0 % B52;
    c := Shift52(c0);
    ShiftKeeps(c0);
    k := u0;
    ThirdArithmetic(p0, p5, d, tx, d0 % B52, u0, r0, c, d');
  }

  lemma ThirdArithmetic(p0: int, p5: int, d: int, tx: int, u: int, u0: int, r0: int, c: int, d': int)
    requires d + p5 == u + B52 * d' && u0 == 16 * u + tx && p0 + u0 * FOLD == r0 + B52 * c
    ensures r0 + B52 * (c + Q * d') + P * u0 == p0 + TWO256 * tx + Q * (d + p5)
  {
  }

  /** c += low; d += high; c += (d & M) * R; d >>= 52; r = c & M; c >>= 52. */
  method Middle(low: u128, high: u128, c: u64, d: u64) returns (r: u64, c': u64, d': u64, ghost k: int)
    requires low <= 0x5_0000_0000_0000_0000_0000_0000_0000 && high <= 0x5_0000_0000_0000_0000_0000_0000_0000
    requires c < 0x8000_0000_0000_0000 && d < 0x8000_0000_0000_0000
    ensures r < B52 && c' < 0x8000_0000_0000_0000 && d' < 0x8000_0000_0000_0000
    ensures high <= 0x20_0000_0000_0000_0000_0000_0000_00 ==> d' <= 0x400_0000_0000_0000
    ensures r + B52 * (c' + Q * d') + P * k == c + low + Q * (d + high)
  {
    var d0: u128 := d + high;
    var c0: u128 := c + low + (d0 % B52) * R;
    d' := Shift52(d0);
    ShiftKeeps(d0);
    r := c0 % B52;
    c' := Shift52(c0);
    ShiftKeeps(c0);
    k := 16 * (d0 % B52);
  }

  /** c += t3 (low register); c += d * R; r[3] = c & M; c >>= 52; r[4] = c + t4 (low register). */
  method Last(t3: u64, t4: u64, c: u64, d: u64) returns (r3: u64, r4: u64, ghost k: int)
    requires t3 < B52 && t4 < 0x1_0000_0000_0000 && c < 0x8000_0000_0000_0000 && d <= 0x400_0000_0000_0000
    ensures r3 < B52 && r4 <= 2 * 0xFFFF_FFFF_FFFF
    ensures r3 + B52 * r4 + P * k == c + Q * d + t3 + B52 * t4
  {
    ModSmall(c + t3, U64);
    var c0: u128 := AddLow(c, t3) + d * R;
    r3 := c0 % B52;
    var c1 := Shift52(c0);
    ShiftKeeps(c0);
    ModSmall(c1 + t4, U64);
    r4 := AddLow(c1, t4);
    k := 16 * d;
  }

  lemma FiveLimbs(a: nat, b: nat, c: nat, d: nat, e: nat)
    ensures Value([a, b, c, d, e], B52) == a + B52 * (b + B52 * (c + B52 * (d + B52 * e)))
  {
    OneMore(e, []);
    OneMore(d, [e]);
    OneMore(c, [d, e]);
    OneMore(b, [c, d, e]);
    OneMore(a, [b, c, d, e]);
    assert [d] + [e] == [d, e] && [c] + [d, e] == [c, d, e] && [b] + [c, d, e] == [b, c, d, e];
    assert [a] + [b, c, d, e] == [a, b, c, d, e] && [e] + [] == [e];
  }

  lemma OneMore(x: nat, s: seq<nat>)
    ensures Value([x] + s, B52) == x + B52 * Value(s, B52)
  {
    assert ([x] + s)[1..] == s;
  }

  /** Nine columns, the upper four and the lower five. */
  lemma NineColumns(p: seq<nat>)
    requires |p| == 9
    ensures Value(p, B52) == p[0] + B52 * (p[1] + B52 * (p[2] + B52 * (p[3] + B52 * p[4])))
                           + Q * (p[5] + B52 * (p[6] + B52 * (p[7] + B52 * p[8])))
  {
    SplitColumns(p);
    FiveLimbs(p[0], p[1], p[2], p[3], p[4]);
    assert p[..5] == [p[0], p[1], p[2], p[3], p[4]];
    FourLimbs(p[5..]);
  }

  lemma FourLimbs(q: seq<nat>)
    requires |q| == 4
    ensures Value(q, B52) == q[0] + B52 * (q[1] + B52 * (q[2] + B52 * q[3]))
  {
    TrailingZero(q, B52);
    FiveLimbs(q[0], q[1], q[2], q[3], 0);
    assert q + [0] == [q[0], q[1], q[2], q[3], 0];
  }

  lemma SplitColumns(p: seq<nat>)
    requires |p| == 9
    ensures Value(p, B52) == Value(p[..5], B52) + Q * Value(p[5..], B52)
  {
    assert p == p[..5] + p[5..];
    ValueConcat(p[..5], p[5..], B52);
    FifthPower();
  }

  lemma FifthPower()
    ensures Power(B52, 5) == Q
  {
    ShapeFacts(FIVE);
    assert Power(B52, 5) == B52 * Power(B52, 4);
  }

  lemma Balance(p0: int, p1: int, p2: int, p3: int, p4: int, p5: int, p6: int, p7: int, p8: int,
                t3: int, t4: int, tx: int, c1: int, d1: int, d2: int, c3: int, d3: int, c4: int, d4: int,
                c5: int, d5: int, r0: int, r1: int, r2: int, r3: int, r4: int,
                k1: int, k2: int, k3: int, k4: int, k5: int, k6: int)
      returns (k: int)
    requires t3 + B52 * (d1 + Q * c1) + P * k1 == p3 + Q * p8
    requires t4 + 0x1_0000_0000_0000 * tx + B52 * d2 + P * k2 == p4 + d1 + Q * c1
    requires r0 + B52 * (c3 + Q * d3) + P * k3 == p0 + TWO256 * tx + Q * (d2 + p5)
    requires r1 + B52 * (c4 + Q * d4) + P * k4 == c3 + p1 + Q * (d3 + p6)
    requires r2 + B52 * (c5 + Q * d5) + P * k5 == c4 + p2 + Q * (d4 + p7)
    requires r3 + B52 * r4 + P * k6 == c5 + Q * d5 + t3 + B52 * t4
    ensures r0 + B52 * (r1 + B52 * (r2 + B52 * (r3 + B52 * r4)))
         == p0 + B52 * (p1 + B52 * (p2 + B52 * (p3 + B52 * p4))) + Q * (p5 + B52 * (p6 + B52 * (p7 + B52 * p8)))
            - P * k
  {
    k := k3 + B52 * (k4 + B52 * (k5 + B52 * (k6 + k1 + B52 * k2)));
  }

  lemma ModP(v: int, u: int, k: int)
    requires u == v - P * k
    ensures u % P == v % P
  {
    DivModUnique(u, P, v / P - k, v % P);
  }

  ghost predicate Output(r: seq<nat>) {
    |r| == 5 && r[0] < B52 && r[1] < B52 && r[2] < B52 && r[3] < B52 && r[4] <= 2 * 0xFFFF_FFFF_FFFF
  }

  /** The steps that multiplication and squaring share, from the column sums on. */
  method FoldColumns(p: seq<u128>) returns (r: seq<nat>)
    requires ColumnSums(p)
    ensures Output(r) && Value(r, B52) % P == Value(p, B52) % P
  {
    var t3, c1, d1, k1 := First(p[3], p[8]);
    var t4, tx, d2, k2 := Second(p[4], c1, d1);
    var r0, c3, d3, k3 := Third(p[0], p[5], d2, tx);
    var r1, c4, d4, k4 := Middle(p[1], p[6], c3, d3);
    var r2, c5, d5, k5 := Middle(p[2], p[7], c4, d4);
    var r3, r4, k6 := Last(t3, t4, c5, d5);
    r := [r0, r1, r2, r3, r4];
    FiveLimbs(r0, r1, r2, r3, r4);
    NineColumns(p);
    ghost var k := Balance(p[0], p[1], p[2], p[3], p[4], p[5], p[6], p[7], p[8], t3, t4, tx, c1, d1, d2, c3, d3,
                           c4, d4, c5, d5, r0, r1, r2, r3, r4, k1, k2, k3, k4, k5, k6);
    ModP(Value(p, B52), Value(r, B52), k);
  }
}
