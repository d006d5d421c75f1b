/** Reading scalars from bytes, reduced modulo the order of the Ed25519 group. */
module ModmExpand {
  import opened Words
  import opened Arith
  import opened Bits
  import opened Digits
  import opened LimbProducts
  import opened Modm

  /** The number in little-endian digits. */
  function Little(b: int, s: seq<int>): int {
    if s == [] then 0 else s[0] + b * Little(b, s[1..])
  }

  lemma OneDigit(b: int, s: seq<int>, k: nat)
    requires k < |s|
    ensures Little(b, s[k..]) == s[k] + b * Little(b, s[k + 1..])
  {
    assert s[k..][1..] == s[k + 1..];
  }

  /** Little-endian digits are big-endian digits in reverse. */
  lemma {:induction false} LittleIs(b: int, s: seq<int>, t: seq<int>)
    requires |t| == |s| && forall j :: 0 <= j < |s| ==> t[j] == s[|s| - 1 - j]
    ensures Little(b, s) == Num(b, t)
  {
    if s != [] {
      LittleIs(b, s[1..], t[..|t| - 1]);
    }
  }

  lemma {:induction false} LittleConcat(b: int, s: seq<int>, t: seq<int>)
    ensures Little(b, s + t) == Little(b, s) + Pow(b, |s|) * Little(b, t)
  {
    if s == [] {
      assert s + t == t;
    } else {
      LittleConcat(b, s[1..], t);
      assert (s + t)[1..] == s[1..] + t;
      Distribute(b, Little(b, s[1..]), Pow(b, |s| - 1) * Little(b, t));
      Assoc(b, Pow(b, |s| - 1), Little(b, t));
    }
  }

  lemma {:induction false} LittleZeros(b: int, n: nat)
    ensures Little(b, seq(n, _ => 0)) == 0
  {
    if n > 0 {
      LittleZeros(b, n - 1);
      assert seq(n, _ => 0)[1..] == seq(n - 1, _ => 0);
    }
  }

  lemma {:induction false} LittleBound(s: seq<u8>)
    ensures 0 <= Little(256, s) < Pow(256, |s|)
  {
    if s != [] {
      LittleBound(s[1..]);
    }
  }

  // --------------------------------------------------------------------- words

  /** Four bytes as a word. */
  function WordAt(s: seq<int>, i: nat): int
    requires 4 * i + 4 <= |s|
  {
    s[4 * i] + 0x100 * (s[4 * i + 1] + 0x100 * (s[4 * i + 2] + 0x100 * s[4 * i + 3]))
  }

  // U8TO32_LE
  method ReadWord(s: seq<u8>, i: nat) returns (w: u32)
    requires 4 * i + 4 <= |s|
    ensures w == WordAt(s, i)
  {
    hide Or;
    var a, b, c, d := s[4 * i], s[4 * i + 1], s[4 * i + 2], s[4 * i + 3];
    TwoTo32();
    PowAdd(2, 16, 8);
    OrDisjoint(a, b, 8);
    OrDisjoint(a + b as int * 0x100, c, 16);
    OrDisjoint(a + b as int * 0x100 + c as int * 0x1_0000, d, 24);
    w := Or(Or(Or(a, b as int * 0x100), c as int * 0x1_0000), d as int * 0x100_0000);
  }

  // the loads at the beginning of expand256_modm
  method ReadWords(work: seq<u8>) returns (x: seq<u32>)
    requires |work| == 64
    ensures |x| == 16 && forall i :: 0 <= i < 16 ==> x[i] == WordAt(work, i)
  {
    hide WordAt;
    var x0 := ReadWord(work, 0);
    var x1 := ReadWord(work, 1);
    var x2 := ReadWord(work, 2);
    var x3 := ReadWord(work, 3);
    var x4 := ReadWord(work, 4);
    var x5 := ReadWord(work, 5);
    var x6 := ReadWord(work, 6);
    var x7 := ReadWord(work, 7);
    var x8 := ReadWord(work, 8);
    var x9 := ReadWord(work, 9);
    var x10 := ReadWord(work, 10);
    var x11 := ReadWord(work, 11);
    var x12 := ReadWord(work, 12);
    var x13 := ReadWord(work, 13);
    var x14 := ReadWord(work, 14);
    var x15 := ReadWord(work, 15);
    x := [x0, x1, x2, x3, x4, x5, x6, x7, x8, x9, x10, x11, x12, x13, x14, x15];
  }

  lemma {:induction false} WordsAreBytes(s: seq<u8>, x: seq<u32>)
    requires |s| == 4 * |x| && forall i :: 0 <= i < |x| ==> x[i] == WordAt(s, i)
    ensures Little(256, s) == Little(0x1_0000_0000, x)
  {
    if x != [] {
      var t: seq<u8>, y: seq<u32> := s[4..], x[1..];
      forall i | 0 <= i < |y|
        ensures y[i] == WordAt(t, i)
      {
        assert x[i + 1] == WordAt(s, i + 1);
      }
      WordsAreBytes(t, y);
      assert x[0] == WordAt(s, 0);
      FirstBytes(s);
    }
  }

  lemma FirstBytes(s: seq<u8>)
    requires |s| >= 4
    ensures Little(256, s) == WordAt(s, 0) + 0x1_0000_0000 * Little(256, s[4..])
  {
    OneDigit(256, s, 0);
    OneDigit(256, s, 1);
    OneDigit(256, s, 2);
    OneDigit(256, s, 3);
    assert s[0..] == s;
    hide Little;
  }

  /** The number in the words from the k-th on. */
  lemma EightWords(x: seq<int>, k: nat)
    requires k + 8 <= |x|
    ensures Little(0x1_0000_0000, x[k..]) == x[k] + 0x1_0000_0000 * (x[k + 1] + 0x1_0000_0000 * (x[k + 2]
      + 0x1_0000_0000 * (x[k + 3] + 0x1_0000_0000 * (x[k + 4] + 0x1_0000_0000 * (x[k + 5] + 0x1_0000_0000 * (x[k + 6]
      + 0x1_0000_0000 * (x[k + 7] + 0x1_0000_0000 * Little(0x1_0000_0000, x[k + 8..]))))))))
  {
    FourWords(x, k);
    FourWords(x, k + 4);
    hide Little;
  }

  lemma FourWords(x: seq<int>, k: nat)
    requires k + 4 <= |x|
    ensures Little(0x1_0000_0000, x[k..]) == x[k] + 0x1_0000_0000 * (x[k + 1] + 0x1_0000_0000 * (x[k + 2]
      + 0x1_0000_0000 * (x[k + 3] + 0x1_0000_0000 * Little(0x1_0000_0000, x[k + 4..]))))
  {
    OneDigit(0x1_0000_0000, x, k);
    OneDigit(0x1_0000_0000, x, k + 1);
    OneDigit(0x1_0000_0000, x, k + 2);
    OneDigit(0x1_0000_0000, x, k + 3);
  }

  // --------------------------------------------------------------------- limbs

  /** What is left of a word below some bit, and the bits from there on. */
  ghost predicate Cut(x: int, e: int, high: int, low: int) { x == e * high + low && 0 <= low < e && 0 <= high }

  /** A limb is the upper bits of one word and the lower ones of the next. */
  ghost predicate Straddles(limb: int, high: int, low: int, u: int) { limb == high + u * low }

  // ((x >> m) | (y << n)) & 0x3fffffff, with d for 1 << m, u for 1 << n and e for 1 << (30 - n)
  method Straddle(x: u32, y: u32, d: u32, ghost e: nat, bits: nat) returns (limb: u32, ghost high: nat, ghost low: nat)
    requires d > 0 && d as int * Pow(2, bits) == 0x1_0000_0000 && e * Pow(2, bits) == 0x4000_0000
    ensures high == x as int / d as int && low == y % e && limb < 0x4000_0000
    ensures Straddles(limb, high, low, Pow(2, bits))
  {
    hide Or, Pow;
    ghost var u := Pow(2, bits);
    PowPositive(2, bits);
    high, low := x as int / d as int, y % e;
    DivBelow(x, d, u);
    StraddleIs(high, y, d, e, u);
    OrDisjoint(high, y as int % d as int, bits);
    limb := Or(x as int / d as int, W32(y as int * Pow(2, bits))) % 0x4000_0000;
  }

  lemma StraddleIs(high: nat, y: nat, d: nat, e: nat, u: nat)
    requires d > 0 && u > 0 && d * u == 0x1_0000_0000 && e * u == 0x4000_0000 && high < u
    ensures e > 0 && W32(y * u) == y % d * u && (high + y % d * u) % 0x4000_0000 == high + u * (y % e)
    ensures high + u * (y % e) < 0x4000_0000
  {
    assert d == 4 * e by { Cancel(d, 4 * e, u); }
    DropTop(y, d, u, 0x1_0000_0000);
    LowerBits(y, e);
    DropTop(y % d, e, u, 0x4000_0000);
    DivMod(y, e);
    MaskedSum(high, y % d * u, y % e, e, u);
  }

  lemma MaskedSum(high: nat, v: nat, low: nat, e: nat, u: nat)
    requires e * u == 0x4000_0000 && high < u && low < e && v % 0x4000_0000 == low * u
    ensures (high + v) % 0x4000_0000 == high + u * low < 0x4000_0000
  {
    MulMono(low + 1, e, u);
    assert (low + 1) * u == u * low + u;
    DivMod(v, 0x4000_0000);
    DivModUnique(high + v, 0x4000_0000, v / 0x4000_0000, high + u * low);
  }

  /** Shifting up and dropping the top is dropping the top and shifting up. */
  lemma DropTop(y: nat, d: nat, u: nat, m: nat)
    requires d > 0 && u > 0 && m == d * u
    ensures m > 0 && y * u % m == y % d * u
  {
    var t, v := y / d, y % d;
    DivMod(y, d);
    Distribute(u, t * d, v);
    Regroup(u, t, d);
    Assoc(t, d, u);
    MulMono(v + 1, d, u);
    MulMono(0, v, u);
    MulMono(1, d, u);
    assert (v + 1) * u == v * u + u;
    assert y * u == t * m + v * u;
    DivModUnique(y * u, m, t, v * u);
  }

  lemma LowerBits(y: nat, e: nat)
    requires e > 0
    ensures y % (4 * e) % e == y % e
  {
    DivMod(y, 4 * e);
    var v := y % (4 * e);
    DivMod(v, e);
    Assoc(y / (4 * e), 4, e);
    DivModUnique(y, e, y / (4 * e) * 4 + v / e, v % e);
  }

  lemma Cancel(a: int, b: int, u: int)
    requires u > 0 && a * u == b * u
    ensures a == b
  {
    assert (a - b) * u == 0;
  }

  lemma EvenPowers()
    ensures Pow(2, 2) == 4 && Pow(2, 4) == 0x10 && Pow(2, 6) == 0x40 && Pow(2, 8) == 0x100 && Pow(2, 10) == 0x400
    ensures Pow(2, 12) == 0x1000 && Pow(2, 14) == 0x4000 && Pow(2, 16) == 0x1_0000 && Pow(2, 18) == 0x4_0000
    ensures Pow(2, 20) == 0x10_0000 && Pow(2, 22) == 0x40_0000
  {
    assert Pow(2, 2) == 4;
    PowAdd(2, 2, 2);
    PowAdd(2, 4, 2);
    PowAdd(2, 4, 4);
    PowAdd(2, 8, 2);
    PowAdd(2, 10, 2);
    PowAdd(2, 12, 2);
    PowAdd(2, 14, 2);
    PowAdd(2, 16, 2);
    PowAdd(2, 18, 2);
    PowAdd(2, 20, 2);
  }

  lemma CutIs(x: nat, e: nat)
    requires e > 0
    ensures Cut(x, e, x / e, x % e)
  {
    DivMod(x, e);
  }

  // r1 = x & (2^264 - 1)
  method LowLimbs(x: seq<u32>) returns (r1: seq<u32>)
    requires |x| == 16
    ensures Limbs30(r1) && r1[8] < 0x100_0000
    ensures Number(r1)
         == Little(0x1_0000_0000, x) % 0x100_00000000_00000000_00000000_00000000_00000000_00000000_00000000_00000000
  {
    hide Number, Little, Cut, Straddles, Pow;
    EvenPowers();
    var x0 := x[0] as int % 0x4000_0000;
    var x1, h0, l1 := Straddle(x[0], x[1], 0x4000_0000, 0x1000_0000, 2);
    var x2, h1, l2 := Straddle(x[1], x[2], 0x1000_0000, 0x400_0000, 4);
    var x3, h2, l3 := Straddle(x[2], x[3], 0x400_0000, 0x100_0000, 6);
    var x4, h3, l4 := Straddle(x[3], x[4], 0x100_0000, 0x40_0000, 8);
    var x5, h4, l5 := Straddle(x[4], x[5], 0x40_0000, 0x10_0000, 10);
    var x6, h5, l6 := Straddle(x[5], x[6], 0x10_0000, 0x4_0000, 12);
    var x7, h6, l7 := Straddle(x[6], x[7], 0x4_0000, 0x1_0000, 14);
    var x8, h7, l8 := Straddle(x[7], x[8], 0x1_0000, 0x4000, 16);
    r1 := [x0, x1, x2, x3, x4, x5, x6, x7, x8 % 0x100_0000];
    AllNine(r1);
    CutIs(x[0], 0x4000_0000);
    CutIs(x[1], 0x1000_0000);
    CutIs(x[2], 0x400_0000);
    CutIs(x[3], 0x100_0000);
    CutIs(x[4], 0x40_0000);
    CutIs(x[5], 0x10_0000);
    CutIs(x[6], 0x4_0000);
    CutIs(x[7], 0x1_0000);
    LowIs(x, [h0, h1, h2, h3, h4, h5, h6, h7], [x0, l1, l2, l3, l4, l5, l6, l7, l8], r1, x8);
  }

  lemma LowIs(x: seq<u32>, h: seq<nat>, l: seq<nat>, r: seq<int>, last: nat)
    requires |x| == 16 && |h| == 8 && |l| == |r| == 9
    requires Cut(x[0], 0x4000_0000, h[0], l[0]) && Cut(x[1], 0x1000_0000, h[1], l[1])
    requires Cut(x[2], 0x400_0000, h[2], l[2])
    requires Cut(x[3], 0x100_0000, h[3], l[3]) && Cut(x[4], 0x40_0000, h[4], l[4]) && Cut(x[5], 0x10_0000, h[5], l[5])
    requires Cut(x[6], 0x4_0000, h[6], l[6]) && Cut(x[7], 0x1_0000, h[7], l[7]) && l[8] == x[8] % 0x4000
    requires r[0] == l[0] && Straddles(r[1], h[0], l[1], 0x4) && Straddles(r[2], h[1], l[2], 0x10)
    requires Straddles(r[3], h[2], l[3], 0x40) && Straddles(r[4], h[3], l[4], 0x100)
    requires Straddles(r[5], h[4], l[5], 0x400) && Straddles(r[6], h[5], l[6], 0x1000)
    requires Straddles(r[7], h[6], l[7], 0x4000) && Straddles(last, h[7], l[8], 0x1_0000) && r[8] == last % 0x100_0000
    requires Limbs30(r)
    ensures Number(r)
         == Little(0x1_0000_0000, x) % 0x100_00000000_00000000_00000000_00000000_00000000_00000000_00000000_00000000
  {
    var above := Little(0x1_0000_0000, x[9..]);
    EightWords(x, 0);
    OneDigit(0x1_0000_0000, x, 8);
    assert x[0..] == x;
    TopByte(x[8], h[7], last);
    NineLimbs(r);
    NumberBound(r);
    hide Number, Little;
    var g := x[8] / 0x100;
    DivModUnique(Little(0x1_0000_0000, x),
                 0x100_00000000_00000000_00000000_00000000_00000000_00000000_00000000_00000000,
                 g + 0x100_0000 * above, Number(r));
  }

  lemma TopByte(x: nat, h: nat, last: int)
    requires last == h + 0x1_0000 * (x % 0x4000) && h < 0x1_0000
    ensures last % 0x100_0000 == h + 0x1_0000 * (x % 0x100)
  {
    var v := x % 0x4000;
    assert v % 0x100 == x % 0x100;
    DivModUnique(last, 0x100_0000, v / 0x100, h + 0x1_0000 * (v % 0x100));
  }

  // q1 = x >> 248
  method HighLimbs(x: seq<u32>) returns (q1: seq<u32>)
    requires |x| == 16
    ensures Limbs30(q1) && q1[8] < 0x100_0000
    ensures Number(q1)
         == Little(0x1_0000_0000, x) / 0x1000000_00000000_00000000_00000000_00000000_00000000_00000000_00000000
  {
    hide Number, Little, Cut, Straddles, Pow;
    EvenPowers();
    var x0, h0, l0 := Straddle(x[7], x[8], 0x100_0000, 0x40_0000, 8);
    var x1, h1, l1 := Straddle(x[8], x[9], 0x40_0000, 0x10_0000, 10);
    var x2, h2, l2 := Straddle(x[9], x[10], 0x10_0000, 0x4_0000, 12);
    var x3, h3, l3 := Straddle(x[10], x[11], 0x4_0000, 0x1_0000, 14);
    var x4, h4, l4 := Straddle(x[11], x[12], 0x1_0000, 0x4000, 16);
    var x5, h5, l5 := Straddle(x[12], x[13], 0x4000, 0x1000, 18);
    var x6, h6, l6 := Straddle(x[13], x[14], 0x1000, 0x400, 20);
    var x7, h7, l7 := Straddle(x[14], x[15], 0x400, 0x100, 22);
    q1 := [x0, x1, x2, x3, x4, x5, x6, x7, x[15] as int / 0x100];
    AllNine(q1);
    CutIs(x[7], 0x100_0000);
    CutIs(x[8], 0x40_0000);
    CutIs(x[9], 0x10_0000);
    CutIs(x[10], 0x4_0000);
    CutIs(x[11], 0x1_0000);
    CutIs(x[12], 0x4000);
    CutIs(x[13], 0x1000);
    CutIs(x[14], 0x400);
    CutIs(x[15], 0x100);
    HighIs(x, [h0, h1, h2, h3, h4, h5, h6, h7, q1[8]], [x[7] as int % 0x100_0000, l0, l1, l2, l3, l4, l5, l6, l7], q1);
  }

  lemma HighIs(x: seq<u32>, h: seq<nat>, l: seq<nat>, q: seq<int>)
    requires |x| == 16 && |h| == |l| == |q| == 9
    requires Cut(x[7], 0x100_0000, h[0], l[0]) && Cut(x[8], 0x40_0000, h[1], l[1]) && Cut(x[9], 0x10_0000, h[2], l[2])
    requires Cut(x[10], 0x4_0000, h[3], l[3]) && Cut(x[11], 0x1_0000, h[4], l[4]) && Cut(x[12], 0x4000, h[5], l[5])
    requires Cut(x[13], 0x1000, h[6], l[6]) && Cut(x[14], 0x400, h[7], l[7]) && Cut(x[15], 0x100, h[8], l[8])
    requires Straddles(q[0], h[0], l[1], 0x100) && Straddles(q[1], h[1], l[2], 0x400)
    requires Straddles(q[2], h[2], l[3], 0x1000) && Straddles(q[3], h[3], l[4], 0x4000)
    requires Straddles(q[4], h[4], l[5], 0x1_0000) && Straddles(q[5], h[5], l[6], 0x4_0000)
    requires Straddles(q[6], h[6], l[7], 0x10_0000) && Straddles(q[7], h[7], l[8], 0x40_0000) && q[8] == h[8]
    ensures Number(q)
         == Little(0x1_0000_0000, x) / 0x1000000_00000000_00000000_00000000_00000000_00000000_00000000_00000000
  {
    EightWords(x, 0);
    EightWords(x, 8);
    assert x[0..] == x && Little(0x1_0000_0000, x[16..]) == 0;
    NineLimbs(q);
    var low := x[0] + 0x1_0000_0000 * (x[1] + 0x1_0000_0000 * (x[2] + 0x1_0000_0000 * (x[3] + 0x1_0000_0000 * (x[4]
               + 0x1_0000_0000 * (x[5] + 0x1_0000_0000 * (x[6] + 0x1_0000_0000 * l[0]))))));
    hide Number, Little;
    DivModUnique(Little(0x1_0000_0000, x), 0x1000000_00000000_00000000_00000000_00000000_00000000_00000000_00000000,
                 Number(q), low);
  }

  // expand256_modm: at most 64 bytes become a reduced scalar
  method Expand(out: array<u32>, bytes: seq<u8>)
    requires out.Length == 9 && |bytes| <= 64
    modifies out
    ensures Limbs30(out[..]) && Number(out[..]) == Little(256, bytes) % ORDER
  {
    hide Number, Little, WordAt;
    ghost var z := Little(256, bytes);
    var work: seq<u8> := bytes + seq(64 - |bytes|, _ => 0);
    LittleConcat(256, bytes, seq(64 - |bytes|, _ => 0));
    LittleZeros(256, 64 - |bytes|);
    var x := ReadWords(work);
    WordsAreBytes(work, x);
    var r1 := LowLimbs(x);
    forall j | 0 <= j < 9 {
      out[j] := r1[j];
    }
    assert out[..] == r1;
    LittleBound(bytes);
    BytePowers(|bytes|);
    // 31 bytes are below m
    if |bytes| < 32 {
      DivModUnique(z, 0x100_00000000_00000000_00000000_00000000_00000000_00000000_00000000_00000000, 0, z);
      DivModUnique(z, ORDER, 0, z);
      return;
    }
    var q1 := HighLimbs(x);
    BarrettReduce(out, q1, out, z);
  }

  lemma BytePowers(n: nat)
    requires n <= 64
    ensures Pow(256, n) <= TWO512
    ensures n < 32 ==> Pow(256, n) <= 0x1000000_00000000_00000000_00000000_00000000_00000000_00000000_00000000
  {
    var a: nat, b: nat :| a == 31 && b == 64;
    BytePowersAre(a, b);
    PowMono(256, n, b);
    if n < 32 {
      PowMono(256, n, a);
    }
    hide Pow;
  }

  lemma BytePowersAre(a: nat, b: nat)
    requires a == 31 && b == 64
    ensures Pow(256, a) == 0x1000000_00000000_00000000_00000000_00000000_00000000_00000000_00000000
    ensures Pow(256, b) == TWO512
  {
    hide Pow;
    var c: nat :| c == 8;
    ByteToBits(a);
    ByteToBits(b);
    TwoTo32();
    PowAdd(2, 32, 32);
    PowAdd(2, 64, 64);
    PowAdd(2, 128, 128);
    PowAdd(2, 256, 256);
    PowAdd(2, 128, 64);
    PowAdd(2, 192, 32);
    PowAdd(2, 224, 16);
    PowAdd(2, 240, c);
  }

  lemma ByteToBits(n: nat)
    ensures Pow(256, n) == Pow(2, 8 * n)
  {
    TwoTo32();
    PowPow(2, 8, n);
  }
}
