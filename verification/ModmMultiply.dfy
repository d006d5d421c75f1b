/** Multiplication modulo the order of the Ed25519 group. */
module ModmMultiply {
  import opened Words
  import opened Arith
  import opened LimbProducts
  import opened Modm

  const TWO510 := 0x40000000_00000000_00000000_00000000_00000000_00000000_00000000_00000000_00000000_00000000_00000000_00000000_00000000_00000000_00000000_00000000
  const TWO540 := 0x10000000_00000000_00000000_00000000_00000000_00000000_00000000_00000000_00000000_00000000_00000000_00000000_00000000_00000000_00000000_00000000_00000000

  // the line of mul256_modm that ends r1 and begins q1: f & 0xffffff and (f >> 8) & 0x3fffff
  method MiddleColumn(c0: u64, a: seq<u32>, b: seq<u32>) returns (c: u64, kept: u32, high: u32, ghost rest: nat)
    requires Limbs30(a) && Limbs30(b) && c0 < 0x4_0000_0000
    ensures c < 0x4_0000_0000 && high < 0x40_0000 && rest < 0x100 && kept == (0x100 * high + rest) % 0x100_0000
    ensures Line(c0, Column(a, b, 8), c, high, rest, 0x100)
  {
    ColumnBound(a, b, 8);
    hide Column;
    c := W64(c0 + Column(a, b, 8));
    var f := W32(c);
    ghost var digit := c % 0x4000_0000;
    rest := digit % 0x100;
    Pieces(c / 0x4000_0000, digit, c, 0x100, 0x40_0000);
    Kept(c, digit);
    hide W32;
    kept := f % 0x100_0000;
    high := f as int / 0x100 % 0x40_0000;
    c := c / 0x4000_0000;
  }

  lemma Kept(c: nat, digit: nat)
    requires digit == c % 0x4000_0000
    ensures W32(c) % 0x100_0000 == (0x100 * (digit / 0x100) + digit % 0x100) % 0x100_0000
  {
    DivMod(digit, 0x100);
    KeptOf(c / 0x4000_0000, digit);
  }

  lemma KeptOf(c: nat, digit: nat)
    requires digit < 0x4000_0000
    ensures W32(0x4000_0000 * c + digit) % 0x100_0000 == digit % 0x100_0000
  {
    LowWord(c, digit);
    hide W32;
    var d := c % 4;
    DropMultiple(digit, 0x40 * d);
  }

  lemma DropMultiple(x: int, k: int)
    ensures (x + 0x100_0000 * k) % 0x100_0000 == x % 0x100_0000
  {
  }

  // the lower eight columns of the product: the lower limbs of r1
  method LowEight(a: seq<u32>, b: seq<u32>) returns (c: u64, low: seq<u32>)
    requires Limbs30(a) && Limbs30(b)
    ensures |low| == 8 && (forall j :: 0 <= j < 8 ==> low[j] < 0x4000_0000) && c < 0x4_0000_0000
    ensures Number(Columns(a, b, 0, 8)) == Number(low)
      + 0x10000_00000000_00000000_00000000_00000000_00000000_00000000_00000000 * c
  {
    hide Column, Columns, Number, LowLine;
    var c0, x0 := LowColumn(0, a, b, 0);
    var c1, x1 := LowColumn(c0, a, b, 1);
    var c2, x2 := LowColumn(c1, a, b, 2);
    var c3, x3 := LowColumn(c2, a, b, 3);
    var c4, x4 := LowColumn(c3, a, b, 4);
    var c5, x5 := LowColumn(c4, a, b, 5);
    var c6, x6 := LowColumn(c5, a, b, 6);
    var c7, x7 := LowColumn(c6, a, b, 7);
    c, low := c7, [x0, x1, x2, x3, x4, x5, x6, x7];
    ColumnsAt(a, b, 0, 8);
    EightLines(Columns(a, b, 0, 8), [c0, c1, c2, c3, c4, c5, c6, c7], low);
  }

  lemma EightLines(col: seq<int>, c: seq<int>, r: seq<int>)
    requires |col| == |c| == |r| == 8
    requires LowLine(0, col[0], c[0], r[0]) && LowLine(c[0], col[1], c[1], r[1]) && LowLine(c[1], col[2], c[2], r[2])
    requires LowLine(c[2], col[3], c[3], r[3]) && LowLine(c[3], col[4], c[4], r[4]) && LowLine(c[4], col[5], c[5], r[5])
    requires LowLine(c[5], col[6], c[6], r[6]) && LowLine(c[6], col[7], c[7], r[7])
    ensures Number(col) == Number(r)
      + 0x10000_00000000_00000000_00000000_00000000_00000000_00000000_00000000 * c[7]
  {
    EightLimbs(col);
    EightLimbs(r);
    hide Number;
  }

  lemma EightLimbs(s: seq<int>)
    requires |s| == 8
    ensures Number(s) == s[0] + 0x4000_0000 * (s[1] + 0x4000_0000 * (s[2] + 0x4000_0000 * (s[3] + 0x4000_0000 * (s[4]
      + 0x4000_0000 * (s[5] + 0x4000_0000 * (s[6] + 0x4000_0000 * s[7]))))))
  {
    NineLimbs([0] + s);
    NumberCons(0, s);
    hide Number;
  }

  // the other columns: the last limb of r1, and q1
  method HighNine(c7: u64, a: seq<u32>, b: seq<u32>) returns (kept: u32, q1: seq<u32>, ghost rest: nat, ghost c16: int)
    requires Limbs30(a) && Limbs30(b) && c7 < 0x4_0000_0000
    ensures Limbs30(q1) && q1[8] < 0x40_0000 && rest < 0x100 && kept == (0x100 * Number(q1) + rest) % 0x100_0000
    ensures c7 + Number(Columns(a, b, 8, 9)) == 0x100 * Number(q1) + rest
      + 0x4000_00000000_00000000_00000000_00000000_00000000_00000000_00000000_00000000 * c16
  {
    hide Column, Columns, Number, Line, Pieced;
    TwoTo22();
    var c8, h0;
    c8, kept, h0, rest := MiddleColumn(c7, a, b);
    var c9, h1, l1, r1 := NextColumn(c8, a, b, 9, 0x100, 0x40_0000);
    var c10, h2, l2, r2 := NextColumn(c9, a, b, 10, 0x100, 0x40_0000);
    var c11, h3, l3, r3 := NextColumn(c10, a, b, 11, 0x100, 0x40_0000);
    var c12, h4, l4, r4 := NextColumn(c11, a, b, 12, 0x100, 0x40_0000);
    var c13, h5, l5, r5 := NextColumn(c12, a, b, 13, 0x100, 0x40_0000);
    var c14, h6, l6, r6 := NextColumn(c13, a, b, 14, 0x100, 0x40_0000);
    var c15, h7, l7, r7 := NextColumn(c14, a, b, 15, 0x100, 0x40_0000);
    var cx, h8, l8, r8 := NextColumn(c15, a, b, 16, 0x100, 0x40_0000);
    var x0 := Join(h0, l1, r1, 0x100, 22);
    var x1 := Join(h1, l2, r2, 0x100, 22);
    var x2 := Join(h2, l3, r3, 0x100, 22);
    var x3 := Join(h3, l4, r4, 0x100, 22);
    var x4 := Join(h4, l5, r5, 0x100, 22);
    var x5 := Join(h5, l6, r6, 0x100, 22);
    var x6 := Join(h6, l7, r7, 0x100, 22);
    var x7 := Join(h7, l8, r8, 0x100, 22);
    q1 := [x0, x1, x2, x3, x4, x5, x6, x7, h8];
    c16 := cx;
    AllNine(q1);
    ColumnsAt(a, b, 8, 9);
    NineLines(Columns(a, b, 8, 9), [c7, c8, c9, c10, c11, c12, c13, c14, c15, cx], [h0, h1, h2, h3, h4, h5, h6, h7],
              [rest, r1, r2, r3, r4, r5, r6, r7, r8], q1);
    Lowest(q1, h0, r1, rest);
  }

  lemma TwoTo22()
    ensures Pow(2, 22) == 0x40_0000
  {
    assert Pow(2, 5) == 32;
    PowAdd(2, 5, 5);
    PowAdd(2, 10, 10);
    PowAdd(2, 20, 2);
  }

  /** The pieces of nine columns, put together eight bits further down. */
  lemma NineLines(col: seq<int>, c: seq<int>, h: seq<int>, r: seq<int>, q: seq<int>)
    requires |col| == |r| == |q| == 9 && |c| == 10 && |h| == 8
    requires Line(c[0], col[0], c[1], h[0], r[0], 0x100)
    requires Line(c[1], col[1], c[2], h[1], r[1], 0x100)
    requires Line(c[2], col[2], c[3], h[2], r[2], 0x100)
    requires Line(c[3], col[3], c[4], h[3], r[3], 0x100)
    requires Line(c[4], col[4], c[5], h[4], r[4], 0x100)
    requires Line(c[5], col[5], c[6], h[5], r[5], 0x100)
    requires Line(c[6], col[6], c[7], h[6], r[6], 0x100)
    requires Line(c[7], col[7], c[8], h[7], r[7], 0x100)
    requires Line(c[8], col[8], c[9], q[8], r[8], 0x100)
    requires Pieced(q[0], h[0], r[1], 0x40_0000) && Pieced(q[1], h[1], r[2], 0x40_0000)
    requires Pieced(q[2], h[2], r[3], 0x40_0000) && Pieced(q[3], h[3], r[4], 0x40_0000)
    requires Pieced(q[4], h[4], r[5], 0x40_0000) && Pieced(q[5], h[5], r[6], 0x40_0000)
    requires Pieced(q[6], h[6], r[7], 0x40_0000) && Pieced(q[7], h[7], r[8], 0x40_0000)
    ensures c[0] + Number(col) == 0x100 * Number(q) + r[0]
      + 0x4000_00000000_00000000_00000000_00000000_00000000_00000000_00000000_00000000 * c[9]
  {
    NineLimbs(col);
    NineLimbs(q);
    hide Number;
  }

  /** The last limb of r1 holds the lowest pieces. */
  lemma Lowest(q: seq<int>, h: int, r: int, rest: int)
    requires |q| == 9 && Pieced(q[0], h, r, 0x40_0000)
    ensures (0x100 * Number(q) + rest) % 0x100_0000 == (0x100 * h + rest) % 0x100_0000
  {
    NumberCons(q[0], q[1..]);
    assert [q[0]] + q[1..] == q;
    hide Number;
    DropMultiple(0x100 * h + rest, 0x40 * r + 0x4000 * Number(q[1..]));
  }

  /** What r1 and q1 hold: all of the product below 2^510. */
  lemma Halves(z: int, low: int, kept: int, q1: int, rest: int, c7: int, high: int, c16: int)
    requires 0 <= low < 0x10000_00000000_00000000_00000000_00000000_00000000_00000000_00000000
    requires 0 <= rest < 0x100 && 0 <= q1 < 0x40_00000000_00000000_00000000_00000000_00000000_00000000_00000000_00000000
    requires z == low + 0x10000_00000000_00000000_00000000_00000000_00000000_00000000_00000000 * (c7 + high)
    requires c7 + high == 0x100 * q1 + rest
                          + 0x4000_00000000_00000000_00000000_00000000_00000000_00000000_00000000_00000000 * c16
    requires kept == (0x100 * q1 + rest) % 0x100_0000
    ensures var x := z % TWO510;
      && 0 <= x && x / 0x1000000_00000000_00000000_00000000_00000000_00000000_00000000_00000000 == q1
      && x % 0x100_00000000_00000000_00000000_00000000_00000000_00000000_00000000_00000000
         == low + 0x10000_00000000_00000000_00000000_00000000_00000000_00000000_00000000 * kept
  {
    var u := 0x100 * q1 + rest;
    var x := low + 0x10000_00000000_00000000_00000000_00000000_00000000_00000000_00000000 * u;
    DivModUnique(z, TWO510, c16, x);
    DivModUnique(x, 0x1000000_00000000_00000000_00000000_00000000_00000000_00000000_00000000, q1,
                 low + 0x10000_00000000_00000000_00000000_00000000_00000000_00000000_00000000 * rest);
    DivModUnique(x, 0x100_00000000_00000000_00000000_00000000_00000000_00000000_00000000_00000000, u / 0x100_0000,
                 low + 0x10000_00000000_00000000_00000000_00000000_00000000_00000000_00000000 * kept);
  }

  // mul256_modm, also for r one of the factors: the product modulo 2^510 is reduced
  method Multiply(r: array<u32>, x: array<u32>, y: array<u32>)
    requires r.Length == 9 && Limbs30(x[..]) && Limbs30(y[..])
    modifies r
    ensures Limbs30(r[..])
    ensures Number(r[..]) == old(Number(x[..]) * Number(y[..])) % TWO510 % ORDER
  {
    hide Column, Columns, Number, Pow;
    var a, b: seq<u32> := x[..], y[..];
    ghost var z := Number(a) * Number(b);
    var c7, low := LowEight(a, b);
    var kept, q1, rest, c16 := HighNine(c7, a, b);
    var r1 := new u32[9](j requires 0 <= j < 9 => if j < 8 then low[j] else kept);
    assert r1[..] == low + [kept];
    SplitProduct(a, b, 8);
    EighthPower();
    LowBound(low);
    NumberBound(q1);
    Halves(z, Number(low), kept, Number(q1), rest, c7, Number(Columns(a, b, 8, 9)), c16);
    NineMore(low, kept);
    BarrettReduce(r, q1, r1, z % TWO510);
  }

  lemma NineMore(s: seq<int>, d: int)
    requires |s| == 8 && (forall j :: 0 <= j < 8 ==> 0 <= s[j] < 0x4000_0000) && 0 <= d < 0x4000_0000
    ensures Limbs30(s + [d])
    ensures Number(s + [d]) == Number(s) + 0x10000_00000000_00000000_00000000_00000000_00000000_00000000_00000000 * d
  {
    NineLimbs(s + [d]);
    EightLimbs(s);
    hide Number;
  }

  lemma EighthPower()
    ensures Pow(0x4000_0000, 8) == 0x10000_00000000_00000000_00000000_00000000_00000000_00000000_00000000
  {
    assert Pow(0x4000_0000, 2) == 0x4000_0000 * 0x4000_0000;
    PowAdd(0x4000_0000, 2, 2);
    PowAdd(0x4000_0000, 4, 4);
  }

  lemma LowBound(s: seq<int>)
    requires |s| == 8 && forall j :: 0 <= j < 8 ==> 0 <= s[j] < 0x4000_0000
    ensures 0 <= Number(s) < 0x10000_00000000_00000000_00000000_00000000_00000000_00000000_00000000
  {
    EightLimbs(s);
    hide Number;
  }

  /** The mask on the last limb of q1 makes the result wrong exactly for products from 2^510 up. */
  lemma RightBelow(z: int)
    requires 0 <= z < TWO540
    ensures z % TWO510 % ORDER == z % ORDER <==> z < TWO510
  {
    var t := TWO510;
    var top, w := z / t, z % t;
    if z >= t {
      if w % ORDER == z % ORDER {
        CongMod(z, w, ORDER);
        Power510();
        CancelPowTwo(top, 510, ORDER);
        DividesLess(ORDER, top);
      }
    } else {
      DivModUnique(z, t, 0, z);
    }
  }

  lemma Power510()
    ensures Pow(2, 510) == TWO510
  {
    TwoTo30();
    PowPow(2, 30, 17);
    EighthPower();
    PowAdd(0x4000_0000, 8, 8);
    PowAdd(0x4000_0000, 16, 1);
  }

  lemma TwoTo30()
    ensures Pow(2, 30) == 0x4000_0000
  {
    TwoTo22();
    PowAdd(2, 22, 8);
    assert Pow(2, 8) == 0x100;
  }

  /** Reduced factors never get there. */
  lemma ReducedFactors(x: int, y: int)
    requires 0 <= x < ORDER && 0 <= y < ORDER
    ensures 0 <= x * y < TWO510
  {
    MulStrict(x, ORDER, y, ORDER);
  }
}
