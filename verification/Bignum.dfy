/** The single-pass operations of bignum.c on arrays of nine limbs. */
module Bignum {
  import opened Arith
  import opened Limbs
  import opened Words
  import opened Bits

  /** A bignum256: nine limbs, each below 2^29. */
  ghost predicate IsBignum(x: array<u32>)
    reads x
  {
    x.Length == LIMBS && Normalized(x[..])
  }

  // stores the low 29 bits of acc as limb i and returns the carry into limb i + 1
  method StoreLimb(x: array<u32>, i: nat, acc: u64) returns (carry: u64)
    requires i < x.Length
    modifies x
    ensures carry == High(acc) && x[i] == Low(acc)
    ensures forall j :: 0 <= j < x.Length && j != i ==> x[j] == old(x[j])
    ensures Prefix(x[..], i + 1) + Shift(carry, i + 1) == old(Prefix(x[..], i)) + Shift(acc, i)
  {
    ghost var was := x[..];
    x[i] := Low(acc);
    carry := High(acc);
    PrefixSame(was, x[..], i);
    CarryUp(acc, i);
  }

  // x = x + y; x and y may be the same array
  method Add(x: array<u32>, y: array<u32>)
    requires IsBignum(x) && IsBignum(y) && Value(x[..]) + Value(y[..]) < TWO261
    modifies x
    ensures IsBignum(x) && Value(x[..]) == old(Value(x[..])) + old(Value(y[..]))
  {
    hide Prefix, Shift;
    ghost var x0: seq<int>, y0: seq<int> := x[..], y[..];
    ghost var e := seq(LIMBS, j requires 0 <= j < LIMBS => x0[j] + y0[j]);
    var acc: u32 := 0;
    PrefixStart(e, 0);
    PrefixStart(x0, 0);
    for i := 0 to x.Length
      invariant 0 <= acc <= 7
      invariant forall j :: i <= j < x.Length ==> x[j] == x0[j] && y[j] == y0[j]
      invariant forall j :: 0 <= j < i ==> 0 <= x[j] < BASE
      invariant Prefix(x[..], i) + Shift(acc, i) == Prefix(e, i)
    {
      var sum := W32(acc + x[i] + y[i]);
      ShiftSum(sum, acc, e[i], i);
      PrefixNext(e, i);
      acc := StoreLimb(x, i, sum);
    }
    PrefixCombine(e, 0, x0, -1, y0, x.Length);
    ValueBound(x[..]);
    ShiftConst(acc);
  }

  // x = x + y for a single word y
  method AddI(x: array<u32>, y: u32)
    requires IsBignum(x) && y <= 0xE000_0000 && Value(x[..]) + y < TWO261
    modifies x
    ensures IsBignum(x) && Value(x[..]) == old(Value(x[..])) + y
  {
    ghost var x0: seq<int> := x[..];
    var acc: u32 := y;
    for i := 0 to x.Length
      invariant acc <= 0xE000_0000 && (i > 0 ==> acc <= 7)
      invariant forall j :: i <= j < x.Length ==> x[j] == x0[j]
      invariant forall j :: 0 <= j < i ==> 0 <= x[j] < BASE
      invariant Prefix(x[..], i) + Shift(acc, i) == Prefix(x0, i) + y
    {
      var sum := W32(acc + x[i]);
      ShiftSum(sum, acc, x0[i], i);
      acc := StoreLimb(x, i, sum);
    }
    ValueBound(x[..]);
    ShiftConst(acc);
  }

  // res = x - y, or x - y + 2^261 when that is negative; any of the three may be the same array
  method Subtract(x: array<u32>, y: array<u32>, res: array<u32>)
    requires IsBignum(x) && IsBignum(y) && res.Length == LIMBS
    modifies res
    ensures IsBignum(res)
    ensures var d := old(Value(x[..])) - old(Value(y[..]));
            Value(res[..]) == if d >= 0 then d else d + TWO261
  {
    hide Prefix, Shift;
    ghost var x0: seq<int>, y0: seq<int> := x[..], y[..];
    ghost var e := seq(LIMBS, j requires 0 <= j < LIMBS => 0x1FFF_FFFF + x0[j] - y0[j]);
    var acc: u32 := 1;
    PrefixStart(e, 1);
    PrefixStart(res[..], 1);
    for i := 0 to res.Length
      invariant 0 <= acc <= 7
      invariant forall j :: i <= j < res.Length ==> x[j] == x0[j] && y[j] == y0[j]
      invariant forall j :: 0 <= j < i ==> 0 <= res[j] < BASE
      invariant Prefix(res[..], i) + Shift(acc, i) == Prefix(e, i) + 1
    {
      var sum := W32(acc + (BASE - 1) + x[i] - y[i]);
      ShiftSum(sum, acc, e[i], i);
      PrefixNext(e, i);
      acc := StoreLimb(res, i, sum);
    }
    PrefixCombine(e, 1, x0, 1, y0, res.Length);
    ValueBound(res[..]);
    ValueBound(x0);
    ValueBound(y0);
    ShiftConst(acc);
    ShiftConst(1);
  }

  // x < y, by comparing the bit strings of limb comparisons
  method IsLess(x: array<u32>, y: array<u32>) returns (r: bool)
    requires IsBignum(x) && IsBignum(y)
    ensures r == (Value(x[..]) < Value(y[..]))
  {
    var res1, res2 := 0, 0;
    var i := x.Length;
    while i > 0
      invariant 0 <= i <= x.Length
      invariant 0 <= res1 < Pow(2, x.Length - i) && 0 <= res2 < Pow(2, x.Length - i)
      invariant res1 > res2 <==> Suffix(x[..], i) < Suffix(y[..], i)
      invariant res1 < res2 <==> Suffix(x[..], i) > Suffix(y[..], i)
    {
      i := i - 1;
      res1 := res1 * 2 + if x[i] < y[i] then 1 else 0;
      res2 := res2 * 2 + if x[i] > y[i] then 1 else 0;
    }
    ValueIsSuffix(x[..]);
    ValueIsSuffix(y[..]);
    return res1 > res2;
  }

  // x == 0
  method IsZero(x: array<u32>) returns (r: bool)
    requires IsBignum(x)
    ensures r == (Value(x[..]) == 0)
  {
    var result := 0;
    for i := 0 to x.Length
      invariant result == 0 <==> forall j :: 0 <= j < i ==> x[j] == 0
    {
      OrZero(result, x[i]);
      result := Or(result, x[i]);
    }
    ValueIsSuffix(x[..]);
    SuffixZero(x[..], 0);
    return result == 0;
  }

  // x == 1
  method IsOne(x: array<u32>) returns (r: bool)
    requires IsBignum(x)
    ensures r == (Value(x[..]) == 1)
  {
    var result := Xor(x[0], 1);
    XorZero(x[0], 1);
    for i := 1 to x.Length
      invariant result == 0 <==> x[0] == 1 && forall j :: 1 <= j < i ==> x[j] == 0
    {
      OrZero(result, x[i]);
      result := Or(result, x[i]);
    }
    ValueIsSuffix(x[..]);
    SuffixZero(x[..], 1);
    return result == 0;
  }

  method IsEven(x: array<u32>) returns (r: bool)
    requires IsBignum(x)
    ensures r == (Value(x[..]) % 2 == 0)
  {
    Parity(x[..]);
    return x[0] % 2 == 0;
  }

  lemma Parity(s: seq<int>)
    requires s != []
    ensures Value(s) % 2 == s[0] % 2
  {
    ValueIsSuffix(s);
    var a, b := s[0], Suffix(s, 1);
    assert Value(s) == a + 0x2000_0000 * b;
    hide Value, Suffix;
    assert (a + 0x2000_0000 * b) % 2 == a % 2;
  }

  method Copy(x: array<u32>, y: array<u32>)
    requires x.Length == LIMBS && y.Length == LIMBS
    modifies y
    ensures y[..] == old(x[..])
  {
    forall i | 0 <= i < LIMBS {
      y[i] := x[i];
    }
  }

  // x = n for a small n, as bn_zero and bn_one do
  method SetSmall(x: array<u32>, n: u32)
    requires x.Length == LIMBS && n < BASE
    modifies x
    ensures IsBignum(x) && Value(x[..]) == n
  {
    x[0] := n;
    for i := 1 to x.Length
      invariant x[0] == n
      invariant forall j :: 1 <= j < i ==> x[j] == 0
    {
      x[i] := 0;
    }
    ValueIsSuffix(x[..]);
    SuffixZero(x[..], 1);
  }

  // res = cond ? t : f, with the masks read as a selection
  method CMov(res: array<u32>, cond: bool, t: array<u32>, f: array<u32>)
    requires res.Length == t.Length == f.Length == LIMBS
    modifies res
    ensures res[..] == old(if cond then t[..] else f[..])
    ensures old(IsBignum(if cond then t else f)) ==> IsBignum(res)
  {
    for i := 0 to res.Length
      invariant forall j :: i <= j < res.Length ==> t[j] == old(t[j]) && f[j] == old(f[j])
      invariant forall j :: 0 <= j < i ==> res[j] == old(if cond then t[j] else f[j])
    {
      res[i] := if cond then t[i] else f[i];
    }
  }

  // x <<= 1, dropping bits from 2^261 up
  method LShift(x: array<u32>)
    requires IsBignum(x)
    modifies x
    ensures IsBignum(x)
    ensures Value(x[..])
         == (2 * old(Value(x[..]))) % 0x20_00000000_00000000_00000000_00000000_00000000_00000000_00000000_00000000
  {
    hide Or, Value;
    ghost var x0: seq<int> := x[..];
    var i := x.Length - 1;
    while i > 0
      invariant 0 <= i < x.Length
      invariant forall j :: 0 <= j <= i ==> x[j] == x0[j]
      invariant forall j :: i < j < x.Length ==> x[j] == Low(x0[j] * 2) + x0[j - 1] / 0x1000_0000
    {
      var high := Low(x[i] * 2);
      DoubledOr(x[i], x[i - 1]);
      x[i] := Or(high, x[i - 1] / 0x1000_0000);
      i := i - 1;
    }
    x[0] := Low(x[0] * 2);
    DoubledValue(x0, x[..]);
  }

  lemma DoubledOr(a: nat, b: nat)
    requires b < BASE
    ensures 0 <= Low(a * 2) && Or(Low(a * 2), b / 0x1000_0000) == Low(a * 2) + b / 0x1000_0000 < BASE
  {
    PowersOfTwo();
    LowDouble(a);
    OrDisjoint(b / 0x1000_0000, a % 0x1000_0000, 1);
  }

  lemma LowDouble(a: nat)
    ensures Low(a * 2) == a % 0x1000_0000 * 2
  {
  }

  lemma DoubledValue(s: seq<int>, t: seq<int>)
    requires |s| == |t| == LIMBS && Normalized(s)
    requires t[0] == Low(s[0] * 2)
    requires forall j :: 0 < j < |s| ==> t[j] == Low(s[j] * 2) + s[j - 1] / 0x1000_0000
    ensures Normalized(t)
    ensures Value(t) == (2 * Value(s)) % 0x20_00000000_00000000_00000000_00000000_00000000_00000000_00000000_00000000
  {
    forall j | 0 <= j < |t|
      ensures 0 <= t[j] < BASE
    {
      LowDouble(s[j]);
      assert j > 0 ==> 0 <= s[j - 1] / 0x1000_0000 <= 1;
    }
    var top := s[|s| - 1] / 0x1000_0000;
    Doubled(s, t, |s|);
    ValueBound(t);
    ShiftConst(top);
    DivModUnique(2 * Value(s), TWO261, top, Value(t));
  }

  lemma {:induction false} Doubled(s: seq<int>, t: seq<int>, n: nat)
    requires 0 < n <= |s| == |t| && Normalized(s)
    requires t[0] == Low(s[0] * 2)
    requires forall j :: 0 < j < |s| ==> t[j] == Low(s[j] * 2) + s[j - 1] / 0x1000_0000
    ensures Prefix(t, n) + Shift(s[n - 1] / 0x1000_0000, n) == 2 * Prefix(s, n)
  {
    var d, prev := s[n - 1], if n > 1 then s[n - 2] / 0x1000_0000 else 0;
    PrefixStart(s, 0);
    PrefixStart(t, 0);
    PrefixNext(s, n - 1);
    PrefixNext(t, n - 1);
    ShiftZero(n - 1);
    DoubledLimb(d, prev, t[n - 1], n - 1);
    hide Prefix, Shift;
    if n > 1 {
      Doubled(s, t, n - 1);
    }
  }

  lemma DoubledLimb(d: int, prev: int, e: int, n: nat)
    requires e == Low(d * 2) + prev
    ensures Shift(e, n) + Shift(d / 0x1000_0000, n + 1) == 2 * Shift(d, n) + Shift(prev, n)
  {
    var h, c := d / 0x1000_0000, Low(d * 2);
    assert 2 * d == c + 0x2000_0000 * h;
    ShiftTimes(2, d, n);
    ShiftSum(2 * d, c, 0x2000_0000 * h, n);
    ShiftUp(h, n);
    ShiftSum(e, c, prev, n);
  }

  // x >>= 1
  method RShift(x: array<u32>)
    requires IsBignum(x)
    modifies x
    ensures IsBignum(x) && Value(x[..]) == old(Value(x[..])) / 2
  {
    hide Or, Pow, Value;
    ghost var x0: seq<int> := x[..];
    for i := 0 to x.Length - 1
      invariant forall j :: i <= j < x.Length ==> x[j] == x0[j]
      invariant forall j :: 0 <= j < i ==> x[j] == x0[j] / 2 + x0[j + 1] % 2 * 0x1000_0000
    {
      HalvedLimb(x[i], x[i + 1]);
      x[i] := Or(x[i] / 2, x[i + 1] % 2 * 0x1000_0000);
    }
    x[x.Length - 1] := x[x.Length - 1] / 2;
    HalvedValue(x0, x[..]);
  }

  lemma HalvedLimb(a: nat, b: nat)
    requires a < BASE
    ensures Or(a / 2, b % 2 * 0x1000_0000) == a / 2 + b % 2 * 0x1000_0000 < BASE
  {
    PowersOfTwo();
    OrDisjoint(a / 2, b % 2, 28);
  }

  lemma HalvedValue(s: seq<int>, t: seq<int>)
    requires |s| == |t| == LIMBS && Normalized(s)
    requires t[|s| - 1] == s[|s| - 1] / 2
    requires forall j :: 0 <= j < |s| - 1 ==> t[j] == s[j] / 2 + s[j + 1] % 2 * 0x1000_0000
    ensures Normalized(t) && Value(t) == Value(s) / 2
  {
    forall j | 0 <= j < |t|
      ensures 0 <= t[j] < BASE
    {
      assert 0 <= s[j] < BASE;
      assert j == |s| - 1 || t[j] == s[j] / 2 + s[j + 1] % 2 * 0x1000_0000;
    }
    Halved(s, t, 0);
    ValueIsSuffix(s);
    ValueIsSuffix(t);
    assert Value(s) == 2 * Value(t) + s[0] % 2;
  }

  lemma {:induction false} Halved(s: seq<int>, t: seq<int>, n: nat)
    requires n < |s| == |t| && Normalized(s)
    requires t[|s| - 1] == s[|s| - 1] / 2
    requires forall j :: 0 <= j < |s| - 1 ==> t[j] == s[j] / 2 + s[j + 1] % 2 * 0x1000_0000
    ensures 2 * Suffix(t, n) + s[n] % 2 == Suffix(s, n)
    decreases |s| - n
  {
    if n < |s| - 1 {
      Halved(s, t, n + 1);
    }
  }
}
