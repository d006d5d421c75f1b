/** Scalars modulo the order of the Ed25519 group: the Barrett reduction of modm-donna-32bit.c. */
module Modm {
  import opened Words
  import opened Arith
  import opened Bits
  import opened LimbProducts

  /** m, the order of the group */
  const ORDER := 0x10000000_00000000_00000000_00000000_14def9de_a2f79cd6_5812631a_5cf5d3ed

  const TWO512 := 0x1_00000000_00000000_00000000_00000000_00000000_00000000_00000000_00000000_00000000_00000000_00000000_00000000_00000000_00000000_00000000_00000000

  /** m and mu = 2^512 / m in limbs */
  function OrderLimbs(): seq<u32> {
    [0x1cf5d3ed, 0x20498c69, 0x2f79cd65, 0x37be77a8, 0x00000014, 0, 0, 0, 0x00001000]
  }

  function MuLimbs(): seq<u32> {
    [0x0a2c131b, 0x3673968c, 0x06329a7e, 0x01885742, 0x3fffeb21, 0x3fffffff, 0x3fffffff, 0x3fffffff, 0xf_ffff]
  }

  /** The order of the group, 2^252 + 27742317777372353535851937790883648493. */
  lemma OrderIs()
    ensures ORDER == Pow(2, 252) + 27742317777372353535851937790883648493
  {
    hide Pow;
    TwoTo32();
    PowAdd(2, 32, 29);
    PowAdd(2, 61, 61);
    PowAdd(2, 122, 122);
    PowAdd(2, 244, 8);
  }

  lemma OrderLimbsAre()
    ensures Limbs30(OrderLimbs()) && Number(OrderLimbs()) == ORDER && OrderLimbs()[8] == 0x1000
  {
    AllNine(OrderLimbs());
    NineLimbs(OrderLimbs());
    hide Number;
  }

  lemma MuLimbsAre()
    ensures Limbs30(MuLimbs()) && MuLimbs()[8] == 0xf_ffff
    ensures Number(MuLimbs()) == 0xf_ffffffff_ffffffff_ffffffff_ffffffeb_2106215d_086329a7_ed9ce5a3_0a2c131b
  {
    AllNine(MuLimbs());
    NineLimbs(MuLimbs());
    hide Number;
  }

  // -------------------------------------------------------------- subtractions

  /** A limb of a difference, with the borrows from above and below. */
  ghost predicate Borrowed(t: int, x: int, y: int, below: int, b: int) { t == x - y - below + 0x4000_0000 * b }

  // one line of a subtraction: pb += y; b = lt_modm(x, pb); x - pb + (b << 30)
  method SubtractLimb(x: u32, y: u32, pb0: u32) returns (t: u32, b: u32)
    requires x < 0x4000_0000 && y < 0x4000_0000 && pb0 <= 1
    ensures b <= 1 && t < 0x4000_0000 && Borrowed(t, x, y, pb0, b)
  {
    t, b := SubtractTop(x, y, pb0, 0x4000_0000);
  }

  // the last line, with top for 1 << 16 or 1 << 24
  method SubtractTop(x: u32, y: u32, pb0: u32, top: u32) returns (t: u32, b: u32)
    requires x < 0x4000_0000 && pb0 <= 1 && y + pb0 <= top <= 0x4000_0000
    ensures b <= 1 && t < 0x4000_0000 && (b == 1 ==> t < top) && (b == 0 ==> t <= x)
    ensures t == x - y - pb0 + if b == 1 then top else 0
  {
    var pb := W32(pb0 + y);
    b := W32(x - pb) / 0x8000_0000;
    t := W32(x - pb + if b == 1 then top else 0);
  }

  // nine such lines; the source writes them out for every subtraction
  method SubtractLimbs(x: seq<u32>, y: seq<u32>, top: u32) returns (t: seq<u32>, b: u32)
    requires Limbs30(x) && Limbs30(y) && y[8] < top <= 0x4000_0000
    ensures Limbs30(t) && b <= 1 && if b == 1 then t[8] < top else t[8] <= x[8]
    ensures Number(t) == Number(x) - Number(y)
      + if b == 1 then 0x10000_00000000_00000000_00000000_00000000_00000000_00000000_00000000 * top else 0
  {
    hide Number, Borrowed;
    var t0, b0 := SubtractLimb(x[0], y[0], 0);
    var t1, b1 := SubtractLimb(x[1], y[1], b0);
    var t2, b2 := SubtractLimb(x[2], y[2], b1);
    var t3, b3 := SubtractLimb(x[3], y[3], b2);
    var t4, b4 := SubtractLimb(x[4], y[4], b3);
    var t5, b5 := SubtractLimb(x[5], y[5], b4);
    var t6, b6 := SubtractLimb(x[6], y[6], b5);
    var t7, b7 := SubtractLimb(x[7], y[7], b6);
    var t8, b8 := SubtractTop(x[8], y[8], b7, top);
    t, b := [t0, t1, t2, t3, t4, t5, t6, t7, t8], b8;
    AllNine(t);
    Difference(x, y, t, [b0, b1, b2, b3, b4, b5, b6, b7], if b == 1 then top else 0);
  }

  /** The borrows of the lines cancel, except for the last one. */
  lemma Difference(x: seq<int>, y: seq<int>, t: seq<int>, b: seq<int>, last: int)
    requires |x| == |y| == |t| == 9 && |b| == 8
    requires Borrowed(t[0], x[0], y[0], 0, b[0]) && Borrowed(t[1], x[1], y[1], b[0], b[1])
    requires Borrowed(t[2], x[2], y[2], b[1], b[2]) && Borrowed(t[3], x[3], y[3], b[2], b[3])
    requires Borrowed(t[4], x[4], y[4], b[3], b[4]) && Borrowed(t[5], x[5], y[5], b[4], b[5])
    requires Borrowed(t[6], x[6], y[6], b[5], b[6]) && Borrowed(t[7], x[7], y[7], b[6], b[7])
    requires t[8] == x[8] - y[8] - b[7] + last
    ensures Number(t) == Number(x) - Number(y)
                         + 0x10000_00000000_00000000_00000000_00000000_00000000_00000000_00000000 * last
  {
    NineLimbs(x);
    NineLimbs(y);
    NineLimbs(t);
    hide Number;
  }

  // reduce256_modm
  method Reduce(r: array<u32>)
    requires Limbs30(r[..])
    modifies r
    ensures Limbs30(r[..])
    ensures Number(r[..]) == old(Number(r[..])) - if old(Number(r[..])) < ORDER then 0 else ORDER
  {
    OrderLimbsAre();
    hide Number, OrderLimbs;
    var t, b := SubtractLimbs(r[..], OrderLimbs(), 0x1_0000);
    NumberBound(r[..]);
    NumberBound(t);
    // keep r if r was smaller than m
    if b == 0 {
      forall j | 0 <= j < 9 {
        r[j] := t[j];
      }
      assert r[..] == t;
    }
  }

  // ------------------------------------------------------------- the estimate q3

  // the first half of barrett_reduce256_modm: q3 = (mu * q1) >> 264, without the lowest columns
  method Quotient(q1: seq<u32>) returns (q3: seq<u32>)
    requires Limbs30(q1) && q1[8] < 0x100_0000
    ensures Limbs30(q3)
    ensures 0 <= Number(Columns(MuLimbs(), q1, 7, 10)) - 0x40_0000_0000_0000 * Number(q3) < 0x40_0000_0000_0000
  {
    hide Column, Columns, Number, Line, Pieced;
    MuLimbsAre();
    hide MuLimbs;
    var mu := MuLimbs();
    ColumnBound(mu, q1, 7);
    var c7 := W64(Column(mu, q1, 7));
    ghost var low7 := c7 % 0x4000_0000;
    c7 := c7 / 0x4000_0000;
    var c8, h0, l0, r0 := NextColumn(c7, mu, q1, 8, 0x100_0000, 0x40);
    var c9, h1, l1, r1 := NextColumn(c8, mu, q1, 9, 0x100_0000, 0x40);
    var c10, h2, l2, r2 := NextColumn(c9, mu, q1, 10, 0x100_0000, 0x40);
    var c11, h3, l3, r3 := NextColumn(c10, mu, q1, 11, 0x100_0000, 0x40);
    var c12, h4, l4, r4 := NextColumn(c11, mu, q1, 12, 0x100_0000, 0x40);
    var c13, h5, l5, r5 := NextColumn(c12, mu, q1, 13, 0x100_0000, 0x40);
    var c14, h6, l6, r6 := NextColumn(c13, mu, q1, 14, 0x100_0000, 0x40);
    var c15, h7, l7, r7 := NextColumn(c14, mu, q1, 15, 0x100_0000, 0x40);
    var x8, l8, r8 := LastColumn(c15, mu, q1);
    var x0 := Join(h0, l1, r1, 0x100_0000, 6);
    var x1 := Join(h1, l2, r2, 0x100_0000, 6);
    var x2 := Join(h2, l3, r3, 0x100_0000, 6);
    var x3 := Join(h3, l4, r4, 0x100_0000, 6);
    var x4 := Join(h4, l5, r5, 0x100_0000, 6);
    var x5 := Join(h5, l6, r6, 0x100_0000, 6);
    var x6 := Join(h6, l7, r7, 0x100_0000, 6);
    var x7 := Join(h7, l8, r8, 0x100_0000, 6);
    q3 := [x0, x1, x2, x3, x4, x5, x6, x7, x8];
    AllNine(q3);
    ColumnsAt(mu, q1, 7, 10);
    Gathered(Columns(mu, q1, 7, 10), [c7, c8, c9, c10, c11, c12, c13, c14, c15], [h0, h1, h2, h3, h4, h5, h6, h7],
             [r0, r1, r2, r3, r4, r5, r6, r7, r8], q3, low7);
  }

  lemma UpperBits(c: nat, digit: nat)
    requires digit == c % 0x4000_0000
    ensures c == 0x100_0000 * (c / 0x100_0000) + digit % 0x100_0000
  {
    DivModUnique(c, 0x100_0000, c / 0x4000_0000 * 0x40 + digit / 0x100_0000, digit % 0x100_0000);
  }

  // the last line, which keeps everything above the lower piece
  method LastColumn(c0: u64, mu: seq<u32>, q: seq<u32>) returns (top: u32, low: u32, ghost rest: nat)
    requires Limbs30(mu) && mu[8] == 0xf_ffff && Limbs30(q) && q[8] < 0x100_0000 && c0 < 0x4_0000_0000
    ensures top < 0x4000_0000 && rest < 0x100_0000 && low == 0x40 * rest
    ensures c0 + Column(mu, q, 16) == 0x100_0000 * top + rest
  {
    TopColumn(mu, q);
    hide Column;
    var c := W64(c0 + Column(mu, q, 16));
    var f := W32(c);
    ghost var digit := c % 0x4000_0000;
    rest := digit % 0x100_0000;
    Pieces(c / 0x4000_0000, digit, c, 0x100_0000, 0x40);
    UpperBits(c, digit);
    top := W32(c as int / 0x100_0000);
    hide W32;
    low := W32(f as int * 0x40) % 0x4000_0000;
  }

  /** The pieces of the columns, put together 24 bits further down, are the number without its low 54 bits. */
  lemma Gathered(col: seq<int>, c: seq<int>, h: seq<int>, r: seq<int>, q: seq<int>, low: int)
    requires |col| == 10 && |h| == 8 && |c| == |r| == |q| == 9
    requires 0 <= low < 0x4000_0000 && 0 <= r[0] < 0x100_0000
    requires col[0] == 0x4000_0000 * c[0] + low
    requires Line(c[0], col[1], c[1], h[0], r[0], 0x100_0000)
    requires Line(c[1], col[2], c[2], h[1], r[1], 0x100_0000)
    requires Line(c[2], col[3], c[3], h[2], r[2], 0x100_0000)
    requires Line(c[3], col[4], c[4], h[3], r[3], 0x100_0000)
    requires Line(c[4], col[5], c[5], h[4], r[4], 0x100_0000)
    requires Line(c[5], col[6], c[6], h[5], r[5], 0x100_0000)
    requires Line(c[6], col[7], c[7], h[6], r[6], 0x100_0000)
    requires Line(c[7], col[8], c[8], h[7], r[7], 0x100_0000)
    requires c[8] + col[9] == 0x100_0000 * q[8] + r[8]
    requires Pieced(q[0], h[0], r[1], 0x40) && Pieced(q[1], h[1], r[2], 0x40) && Pieced(q[2], h[2], r[3], 0x40)
    requires Pieced(q[3], h[3], r[4], 0x40) && Pieced(q[4], h[4], r[5], 0x40) && Pieced(q[5], h[5], r[6], 0x40)
    requires Pieced(q[6], h[6], r[7], 0x40) && Pieced(q[7], h[7], r[8], 0x40)
    ensures Number(col) == 0x40_0000_0000_0000 * Number(q) + 0x4000_0000 * r[0] + low
  {
    TenLimbs(col);
    NineLimbs(q);
    hide Number;
  }

  // ------------------------------------------------------------ the remainder

  // r2 = (q3 * m) mod 2^264
  method LowProduct(q3: seq<u32>) returns (r2: seq<u32>, ghost above: int)
    requires Limbs30(q3)
    ensures Limbs30(r2) && r2[8] < 0x100_0000
    ensures Number(Columns(OrderLimbs(), q3, 0, 9)) == Number(r2)
      + 0x100_00000000_00000000_00000000_00000000_00000000_00000000_00000000_00000000 * above
  {
    hide Column, Columns, Number, LowLine;
    OrderLimbsAre();
    hide OrderLimbs;
    var m := OrderLimbs();
    var c0, x0 := LowColumn(0, m, q3, 0);
    var c1, x1 := LowColumn(c0, m, q3, 1);
    var c2, x2 := LowColumn(c1, m, q3, 2);
    var c3, x3 := LowColumn(c2, m, q3, 3);
    var c4, x4 := LowColumn(c3, m, q3, 4);
    var c5, x5 := LowColumn(c4, m, q3, 5);
    var c6, x6 := LowColumn(c5, m, q3, 6);
    var c7, x7 := LowColumn(c6, m, q3, 7);
    var c8, x8 := LowColumn(c7, m, q3, 8);
    r2 := [x0, x1, x2, x3, x4, x5, x6, x7, x8 % 0x100_0000];
    AllNine(r2);
    above := 0x40 * c8 + x8 / 0x100_0000;
    ColumnsAt(m, q3, 0, 9);
    LowLines(Columns(m, q3, 0, 9), [c0, c1, c2, c3, c4, c5, c6, c7, c8], r2, x8);
  }

  /**
    * Algorithm 14.42 of the Handbook of Applied Cryptography, with the lowest columns of the first product left out:
    * the estimate is at most two too small.
    */
  lemma Barrett(x: int, q1: int, q3: int, high: int)
    requires 0 <= x < TWO512
    requires q1 == x / 0x1000000_00000000_00000000_00000000_00000000_00000000_00000000_00000000
    requires 0 <= 0xf_ffffffff_ffffffff_ffffffff_ffffffeb_2106215d_086329a7_ed9ce5a3_0a2c131b * q1
                  - 0x40000_00000000_00000000_00000000_00000000_00000000_00000000 * high
               < 0x100000_00000000_00000000_00000000_00000000_00000000_00000000_00000000
    requires 0 <= high - 0x40_0000_0000_0000 * q3 < 0x40_0000_0000_0000
    ensures 0 <= x - 0x10000000_00000000_00000000_00000000_14def9de_a2f79cd6_5812631a_5cf5d3ed * q3
              < 3 * 0x10000000_00000000_00000000_00000000_14def9de_a2f79cd6_5812631a_5cf5d3ed
  {
  }

  /** Seven columns of products of limbs are below 2^244. */
  lemma MuProduct(q: seq<u32>)
    requires Limbs30(q)
    ensures 0 <= 0xf_ffffffff_ffffffff_ffffffff_ffffffeb_2106215d_086329a7_ed9ce5a3_0a2c131b * Number(q)
                 - 0x40000_00000000_00000000_00000000_00000000_00000000_00000000 * Number(Columns(MuLimbs(), q, 7, 10))
              < 0x100000_00000000_00000000_00000000_00000000_00000000_00000000_00000000
  {
    MuLimbsAre();
    hide MuLimbs;
    SplitProduct(MuLimbs(), q, 7);
    SevenBound(MuLimbs(), q);
    Powers(30);
    hide Number, Columns, Pow;
  }

  /** The columns of m * q from the ninth on make a multiple of 2^270. */
  lemma OrderProduct(q: seq<u32>)
    requires Limbs30(q)
    ensures 0x10000000_00000000_00000000_00000000_14def9de_a2f79cd6_5812631a_5cf5d3ed * Number(q)
         == Number(Columns(OrderLimbs(), q, 0, 9))
            + 0x4000_00000000_00000000_00000000_00000000_00000000_00000000_00000000_00000000
              * Number(Columns(OrderLimbs(), q, 9, 8))
  {
    OrderLimbsAre();
    hide OrderLimbs;
    SplitProduct(OrderLimbs(), q, 9);
    Powers(30);
    hide Number, Columns, Pow;
  }

  /** Two subtractions of m are enough. */
  lemma TwoReductions(x: int, q3: int, r: int, once: int, twice: int)
    requires r == x - 0x10000000_00000000_00000000_00000000_14def9de_a2f79cd6_5812631a_5cf5d3ed * q3
    requires 0 <= r < 3 * 0x10000000_00000000_00000000_00000000_14def9de_a2f79cd6_5812631a_5cf5d3ed
    requires once == r - if r < ORDER then 0 else ORDER
    requires twice == once - if once < ORDER then 0 else ORDER
    ensures twice == x % ORDER
  {
    DivModUnique(x, ORDER, q3 + if r < ORDER then 0 else if once < ORDER then 1 else 2, twice);
  }

  /** Numbers below 2^264 that differ by a multiple of it are the same. */
  lemma SameBelow(a: int, b: int, k: int)
    requires 0 <= a < 0x100_00000000_00000000_00000000_00000000_00000000_00000000_00000000_00000000
    requires 0 <= b < 0x100_00000000_00000000_00000000_00000000_00000000_00000000_00000000_00000000
    requires a - b == 0x100_00000000_00000000_00000000_00000000_00000000_00000000_00000000_00000000 * k
    ensures a == b
  {
  }

  // the second half of barrett_reduce256_modm
  method Remainder(r: array<u32>, q3: seq<u32>, r1: array<u32>, ghost x: int)
    requires r.Length == 9 && Limbs30(q3) && Limbs30(r1[..]) && r1[8] < 0x100_0000
    requires Number(r1[..]) == x % 0x100_00000000_00000000_00000000_00000000_00000000_00000000_00000000_00000000
    requires 0 <= x - 0x10000000_00000000_00000000_00000000_14def9de_a2f79cd6_5812631a_5cf5d3ed * Number(q3)
               < 3 * 0x10000000_00000000_00000000_00000000_14def9de_a2f79cd6_5812631a_5cf5d3ed
    modifies r
    ensures Limbs30(r[..]) && Number(r[..]) == x % ORDER
  {
    hide Number, Columns;
    var r2, above := LowProduct(q3);
    OrderProduct(q3);
    var t, b := SubtractLimbs(r1[..], r2, 0x100_0000);
    NumberBound(t);
    SameBelow(Number(t), x - 0x10000000_00000000_00000000_00000000_14def9de_a2f79cd6_5812631a_5cf5d3ed * Number(q3),
              b - x / 0x100_00000000_00000000_00000000_00000000_00000000_00000000_00000000_00000000
              + above + 0x40 * Number(Columns(OrderLimbs(), q3, 9, 8)));
    forall j | 0 <= j < 9 {
      r[j] := t[j];
    }
    assert r[..] == t;
    Reduce(r);
    ghost var once := Number(r[..]);
    Reduce(r);
    TwoReductions(x, Number(q3), Number(t), once, Number(r[..]));
  }

  // barrett_reduce256_modm, also for r and r1 the same array; x is the number that q1 and r1 were taken from
  method BarrettReduce(r: array<u32>, q1: seq<u32>, r1: array<u32>, ghost x: int)
    requires r.Length == 9 && Limbs30(q1) && Limbs30(r1[..]) && q1[8] < 0x100_0000 && r1[8] < 0x100_0000
    requires 0 <= x < TWO512
    requires Number(q1) == x / 0x1000000_00000000_00000000_00000000_00000000_00000000_00000000_00000000
    requires Number(r1[..]) == x % 0x100_00000000_00000000_00000000_00000000_00000000_00000000_00000000_00000000
    modifies r
    ensures Limbs30(r[..]) && Number(r[..]) == x % ORDER
  {
    hide Number, Columns;
    var q3 := Quotient(q1);
    MuProduct(q1);
    Barrett(x, Number(q1), Number(q3), Number(Columns(MuLimbs(), q1, 7, 10)));
    Remainder(r, q3, r1, x);
  }
}
