/** The base-2^29 numbers of bignum.h: what an array of limbs stands for. */
module Limbs {
  import opened Arith

  const LIMBS := 9
  const BASE := 0x2000_0000

  /** x & BN_LIMB_MASK */
  function Low(x: int): int { x % 0x2000_0000 }

  /** x >> BN_BITS_PER_LIMB */
  function High(x: int): int { x / 0x2000_0000 }

  const TWO224 := 0x1_00000000_00000000_00000000_00000000_00000000_00000000_00000000
  const TWO256 := 0x1_00000000_00000000_00000000_00000000_00000000_00000000_00000000_00000000
  const TWO259 := 0x8_00000000_00000000_00000000_00000000_00000000_00000000_00000000_00000000
  const TWO261 := 0x20_00000000_00000000_00000000_00000000_00000000_00000000_00000000_00000000

  /** The moduli that bignum.c is made for lie between 2^256 - 2^224 and 2^256. */
  predicate NearTwo256(p: int) { TWO256 - TWO224 <= p <= TWO256 }

  /** a * 2^(29 n): the number a, moved up by n limbs. */
  function Shift(a: int, n: nat): int {
    if n == 0 then a else 0x2000_0000 * Shift(a, n - 1)
  }

  /** The number that the n least significant limbs stand for. */
  function Prefix(s: seq<int>, n: nat): int
    requires n <= |s|
  {
    if n == 0 then 0 else Prefix(s, n - 1) + Shift(s[n - 1], n - 1)
  }

  function Value(s: seq<int>): int { Prefix(s, |s|) }

  lemma PrefixStart(s: seq<int>, a: int)
    ensures Prefix(s, 0) == 0 && Shift(a, 0) == a
  {
  }

  lemma PrefixNext(s: seq<int>, n: nat)
    requires n < |s|
    ensures Prefix(s, n + 1) == Prefix(s, n) + Shift(s[n], n)
  {
  }

  predicate Normalized(s: seq<int>) {
    forall j :: 0 <= j < |s| ==> 0 <= s[j] < BASE
  }

  lemma {:induction false} ShiftAdd(a: int, b: int, n: nat)
    ensures Shift(a + b, n) == Shift(a, n) + Shift(b, n)
    ensures Shift(a - b, n) == Shift(a, n) - Shift(b, n)
  {
    if n > 0 {
      ShiftAdd(a, b, n - 1);
    }
  }

  lemma ShiftSum(s: int, a: int, b: int, n: nat)
    requires s == a + b
    ensures Shift(s, n) == Shift(a, n) + Shift(b, n)
  {
    ShiftAdd(a, b, n);
  }

  lemma {:induction false} ShiftTimes(c: int, a: int, n: nat)
    ensures Shift(c * a, n) == c * Shift(a, n)
  {
    if n > 0 {
      ShiftTimes(c, a, n - 1);
      var t := Shift(a, n - 1);
      assert 0x2000_0000 * (c * t) == c * (0x2000_0000 * t);
    }
  }

  lemma ShiftIs(a: int, n: nat)
    ensures Shift(a, n) == a * Shift(1, n)
  {
    ShiftTimes(a, 1, n);
    assert a * 1 == a;
  }

  lemma {:induction false} ShiftUp(a: int, n: nat)
    ensures Shift(0x2000_0000 * a, n) == Shift(a, n + 1)
  {
    if n > 0 {
      ShiftUp(a, n - 1);
    }
  }

  lemma {:induction false} ShiftShift(a: int, m: nat, n: nat)
    ensures Shift(Shift(a, m), n) == Shift(a, m + n)
  {
    if n > 0 {
      ShiftShift(a, m, n - 1);
    }
  }

  lemma {:induction false} ShiftMono(a: int, b: int, n: nat)
    ensures a < b ==> Shift(a, n) < Shift(b, n)
    ensures a <= b ==> Shift(a, n) <= Shift(b, n)
  {
    if n > 0 {
      ShiftMono(a, b, n - 1);
    }
  }

  lemma {:induction false} ShiftZero(n: nat)
    ensures Shift(0, n) == 0
  {
    if n > 0 {
      ShiftZero(n - 1);
    }
  }

  lemma ShiftConst(a: int)
    ensures Shift(a, 8) == a * 0x100_00000000_00000000_00000000_00000000_00000000_00000000_00000000
    ensures Shift(a, 9) == a * 0x20_00000000_00000000_00000000_00000000_00000000_00000000_00000000_00000000
  {
    var a2 := 0x2000_0000 * (0x2000_0000 * a);
    assert Shift(a, 1) == 0x2000_0000 * a;
    assert Shift(a, 2) == a2;
    assert Shift(a, 3) == 0x2000_0000 * a2;
    var a4 := 0x2000_0000 * (0x2000_0000 * a2);
    assert Shift(a, 4) == a4;
    assert Shift(a, 5) == 0x2000_0000 * a4;
    assert Shift(a, 6) == 0x2000_0000 * (0x2000_0000 * a4);
    assert Shift(a, 7) == 0x2000_0000 * Shift(a, 6);
    assert Shift(a, 8) == 0x2000_0000 * Shift(a, 7);
    assert Shift(a, 9) == 0x2000_0000 * Shift(a, 8);
  }

  lemma {:induction false} PrefixSame(s: seq<int>, t: seq<int>, n: nat)
    requires n <= |s| && n <= |t|
    requires forall j :: 0 <= j < n ==> s[j] == t[j]
    ensures Prefix(s, n) == Prefix(t, n)
  {
    if n > 0 {
      PrefixSame(s, t, n - 1);
    }
  }

  lemma {:induction false} PrefixBound(s: seq<int>, n: nat)
    requires n <= |s| && forall j :: 0 <= j < n ==> 0 <= s[j] < BASE
    ensures 0 <= Prefix(s, n) < Shift(1, n)
  {
    if n > 0 {
      PrefixBound(s, n - 1);
      ShiftMono(0, s[n - 1], n - 1);
      ShiftZero(n - 1);
      ShiftMono(s[n - 1] + 1, 0x2000_0000, n - 1);
      ShiftAdd(s[n - 1], 1, n - 1);
      ShiftUp(1, n - 1);
      assert Shift(0x2000_0000, n - 1) == Shift(1, n);
    }
  }

  lemma ValueBound(s: seq<int>)
    requires |s| == LIMBS && Normalized(s)
    ensures 0 <= Value(s) < TWO261
  {
    PrefixBound(s, |s|);
    ShiftConst(1);
  }

  /** Only one carry fits between a low part below 2^(29 n) and a total between k and k + 1 times that. */
  lemma CarryIs(low: int, acc: int, k: int, n: nat)
    requires 0 <= low < Shift(1, n)
    requires Shift(k, n) <= low + Shift(acc, n) < Shift(k + 1, n)
    ensures acc == k
  {
    ShiftAdd(acc, 1, n);
    ShiftMono(acc + 1, k, n);
    ShiftMono(k + 1, acc, n);
  }

  /** The number that the limbs from n on stand for. */
  function Suffix(s: seq<int>, n: nat): int
    requires n <= |s|
    decreases |s| - n
  {
    if n == |s| then 0 else s[n] + 0x2000_0000 * Suffix(s, n + 1)
  }

  lemma {:induction false} SplitAt(s: seq<int>, n: nat)
    requires n <= |s|
    ensures Value(s) == Prefix(s, n) + Shift(Suffix(s, n), n)
    decreases |s| - n
  {
    if n < |s| {
      SplitAt(s, n + 1);
      var t := Suffix(s, n + 1);
      ShiftAdd(s[n], 0x2000_0000 * t, n);
      ShiftUp(t, n);
    } else {
      ShiftZero(n);
    }
  }

  lemma {:induction false} SuffixDrop(s: seq<int>, d: nat, n: nat)
    requires d + n <= |s|
    ensures Suffix(s[d..], n) == Suffix(s, d + n)
    decreases |s| - n
  {
    if d + n < |s| {
      SuffixDrop(s, d, n + 1);
    }
  }

  lemma ValueIsSuffix(s: seq<int>)
    ensures Value(s) == Suffix(s, 0)
  {
    SplitAt(s, 0);
  }

  lemma {:induction false} SuffixZero(s: seq<int>, n: nat)
    requires n <= |s| && Normalized(s)
    ensures 0 <= Suffix(s, n)
    ensures Suffix(s, n) == 0 <==> forall j :: n <= j < |s| ==> s[j] == 0
    decreases |s| - n
  {
    if n < |s| {
      SuffixZero(s, n + 1);
    }
  }

  /** A carry out of limb n is a carry into limb n + 1. */
  lemma CarryUp(acc: int, n: nat)
    ensures Shift(acc, n) == Shift(Low(acc), n) + Shift(High(acc), n + 1)
  {
    ShiftSum(acc, Low(acc), 0x2000_0000 * High(acc), n);
    ShiftUp(High(acc), n);
  }

  /** A digit string that combines two others stands for the same combination of their numbers. */
  lemma {:induction false} PrefixCombine(e: seq<int>, c: int, x: seq<int>, k: int, y: seq<int>, n: nat)
    requires n <= |e| && n <= |x| && n <= |y|
    requires forall j :: 0 <= j < n ==> e[j] == c * 0x1FFF_FFFF + x[j] - k * y[j]
    ensures Prefix(e, n) == c * (Shift(1, n) - 1) + Prefix(x, n) - k * Prefix(y, n)
  {
    if n > 0 {
      PrefixCombine(e, c, x, k, y, n - 1);
      ShiftCombine(e[n - 1], c, x[n - 1], k, y[n - 1], n - 1);
      Distribute(k, Prefix(y, n - 1), Shift(y[n - 1], n - 1));
      Distribute(c, Shift(1, n - 1) - 1, Shift(1, n) - Shift(1, n - 1));
    }
  }

  lemma ShiftCombine(d: int, c: int, x: int, k: int, y: int, n: nat)
    requires d == c * 0x1FFF_FFFF + x - k * y
    ensures Shift(d, n) == c * (Shift(1, n + 1) - Shift(1, n)) + Shift(x, n) - k * Shift(y, n)
  {
    ShiftAdd(c * 0x1FFF_FFFF + x, k * y, n);
    ShiftAdd(c * 0x1FFF_FFFF, x, n);
    ShiftTimes(k, y, n);
    ShiftTimes(c, 0x1FFF_FFFF, n);
    ShiftTimes(0x1FFF_FFFF, 1, n);
  }
}
