/** Lazy and full reduction modulo a prime near 2^256, and halving modulo an odd number. */
module BignumReduce {
  import opened Arith
  import opened Limbs
  import opened Words
  import opened Bignum

  // x = x mod prime for a partly reduced x
  method Mod(x: array<u32>, prime: array<u32>)
    requires IsBignum(x) && IsBignum(prime) && x != prime
    requires 0 < Value(prime[..]) && Value(x[..]) < 2 * Value(prime[..])
    modifies x
    ensures IsBignum(x) && Value(x[..]) == old(Value(x[..])) % Value(prime[..])
  {
    ghost var v, p := Value(x[..]), Value(prime[..]);
    ValueBound(x[..]);
    var xLessPrime := IsLess(x, prime);
    var temp := new u32[LIMBS](_ => 0);
    Subtract(x, prime, temp);
    CMov(x, xLessPrime, x, temp);
    if v < p {
      DivModUnique(v, p, 0, v);
    } else {
      DivModUnique(v, p, 1, v - p);
    }
  }

  // x = x - (x / 2^256) * prime; the limbs of x may be any 32-bit words
  method FastMod(x: array<u32>, prime: array<u32>)
    requires x.Length == LIMBS && IsBignum(prime) && x != prime && NearTwo256(Value(prime[..]))
    modifies x
    ensures IsBignum(x)
    ensures Value(x[..]) < 2 * Value(prime[..])
    ensures Cong(Value(x[..]), old(Value(x[..])), Value(prime[..]))
  {
    ghost var x0: seq<int>, y: seq<int> := x[..], prime[..];
    var coef: u32 := x[LIMBS - 1] / 0x100_0000;
    ghost var e := seq(LIMBS, j requires 0 <= j < LIMBS => 0x100 * 0x1FFF_FFFF + x0[j] - coef * y[j]);
    var acc: u64 := 0x100;
    for i := 0 to x.Length
      invariant 0 <= acc <= 0x7_FFFF_FFFF
      invariant prime[..] == y
      invariant forall j :: i <= j < x.Length ==> x[j] == x0[j]
      invariant forall j :: 0 <= j < i ==> 0 <= x[j] < BASE
      invariant Prefix(x[..], i) + Shift(acc, i) == Prefix(e, i) + 0x100
    {
      FastTerm(y[i], coef);
      var sum := W64(acc + W64(W64(0x1FFF_FFFF * 0x100) + x[i] - W64(prime[i] * coef)));
      ShiftSum(sum, acc, e[i], i);
      acc := StoreLimb(x, i, sum);
    }
    FastSum(x0, y, coef, e, x[..], acc);
  }

  // x = x * k mod prime, partly reduced, for k <= 8
  method MultK(x: array<u32>, k: u8, prime: array<u32>)
    requires IsBignum(x) && IsBignum(prime) && x != prime && NearTwo256(Value(prime[..])) && k <= 8
    modifies x
    ensures IsBignum(x)
    ensures Value(x[..]) < 2 * Value(prime[..])
    ensures Cong(Value(x[..]), k * old(Value(x[..])), Value(prime[..]))
  {
    ghost var x0: seq<int> := x[..];
    for i := 0 to x.Length
      invariant forall j :: 0 <= j < i ==> x[j] == k * x0[j]
      invariant forall j :: i <= j < x.Length ==> x[j] == x0[j]
    {
      MulMono2(k, 8, x0[i], 0x1FFF_FFFF);
      x[i] := W32(k * x[i]);
    }
    PrefixScaled(x[..], k, x0, x.Length);
    FastMod(x, prime);
  }

  lemma {:induction false} PrefixScaled(e: seq<int>, k: int, x: seq<int>, n: nat)
    requires n <= |e| && n <= |x| && forall j :: 0 <= j < n ==> e[j] == k * x[j]
    ensures Prefix(e, n) == k * Prefix(x, n)
  {
    if n > 0 {
      PrefixScaled(e, k, x, n - 1);
      ShiftTimes(k, x[n - 1], n - 1);
      Distribute(k, Prefix(x, n - 1), Shift(x[n - 1], n - 1));
    }
  }

  // x = x + y mod prime, partly reduced; x and y may be the same array
  method AddMod(x: array<u32>, y: array<u32>, prime: array<u32>)
    requires IsBignum(x) && IsBignum(y) && IsBignum(prime) && x != prime && NearTwo256(Value(prime[..]))
    modifies x
    ensures IsBignum(x)
    ensures Value(x[..]) < 2 * Value(prime[..])
    ensures Cong(Value(x[..]), old(Value(x[..])) + old(Value(y[..])), Value(prime[..]))
  {
    ghost var x0: seq<int>, y0: seq<int> := x[..], y[..];
    for i := 0 to x.Length
      invariant forall j :: 0 <= j < i ==> x[j] == x0[j] + y0[j]
      invariant forall j :: i <= j < x.Length ==> x[j] == x0[j] && y[j] == y0[j]
    {
      x[i] := W32(x[i] + y[i]);
    }
    PrefixCombine(x[..], 0, x0, -1, y0, x.Length);
    FastMod(x, prime);
  }

  lemma FastTerm(y: int, coef: int)
    requires 0 <= y < BASE && 0 <= coef < 0x100
    ensures 0 <= y * coef <= 0xFF * 0x1FFF_FFFF
  {
    MulMono2(y, 0x1FFF_FFFF, coef, 0xFF);
  }

  lemma FastSum(x: seq<u32>, y: seq<int>, coef: int, e: seq<int>, r: seq<int>, acc: int)
    requires |x| == |y| == |e| == |r| == LIMBS && Normalized(y) && Normalized(r) && NearTwo256(Value(y))
    requires coef == x[LIMBS - 1] / 0x100_0000
    requires forall j :: 0 <= j < LIMBS ==> e[j] == 0x100 * 0x1FFF_FFFF + x[j] - coef * y[j]
    requires Prefix(r, |r|) + Shift(acc, |r|) == Prefix(e, |e|) + 0x100
    ensures Value(r) < 2 * Value(y) && Cong(Value(r), Value(x), Value(y))
  {
    var p := Value(y);
    var t := Value(x) - coef * p;
    PrefixCombine(e, 0x100, x, coef, y, |e|);
    FastBounds(x, coef, p);
    PrefixBound(r, |r|);
    CarryFits(Value(r), acc, 0x100, t);
    CongDrop(Value(x), coef, p);
  }

  /** The running sum ends with the carry it began with, so the limbs hold the difference. */
  lemma CarryFits(low: int, acc: int, k: int, t: int)
    requires 0 <= low < Shift(1, LIMBS) && 0 <= t < TWO261
    requires low + Shift(acc, LIMBS) == k * Shift(1, LIMBS) + t
    ensures low == t && acc == k
  {
    ShiftTimes(k, 1, LIMBS);
    ShiftTimes(k + 1, 1, LIMBS);
    ShiftConst(1);
    CarryIs(low, acc, k, LIMBS);
  }

  /** The quotient estimate from the top limb leaves less than twice the prime. */
  lemma FastBounds(x: seq<u32>, coef: int, p: int)
    requires |x| == LIMBS && coef == x[LIMBS - 1] / 0x100_0000 && NearTwo256(p)
    ensures 0 <= Value(x) - coef * p < 2 * p
  {
    WordBound(x, 8);
    ShiftConst(1);
    ShiftConst(x[8]);
    var low, top := Prefix(x, 8), x[8] % 0x100_0000;
    assert x[8] == coef * 0x100_0000 + top;
    assert Value(x) == Prefix(x, 8) + Shift(x[8], 8);
    MulMono2(coef, 0xFF, TWO256 - p, TWO224);
    assert coef * TWO256 - coef * p == coef * (TWO256 - p);
  }

  lemma {:induction false} WordBound(x: seq<u32>, n: nat)
    requires n <= |x|
    ensures 0 <= Prefix(x, n) < 9 * Shift(1, n)
  {
    if n > 0 {
      WordBound(x, n - 1);
      ShiftMono(0, x[n - 1], n - 1);
      ShiftZero(n - 1);
      ShiftMono(x[n - 1], 8 * 0x2000_0000, n - 1);
      ShiftTimes(8, 0x2000_0000, n - 1);
      ShiftTimes(0x2000_0000, 1, n - 1);
    }
  }

  // x = x / 2 mod prime for an odd prime
  method MultHalf(x: array<u32>, prime: array<u32>)
    requires IsBignum(x) && IsBignum(prime) && x != prime
    requires Value(prime[..]) % 2 == 1 && Value(x[..]) + Value(prime[..]) < TWO261
    modifies x
    ensures IsBignum(x)
    ensures 2 * Value(x[..]) == old(Value(x[..])) + if old(Value(x[..])) % 2 == 1 then Value(prime[..]) else 0
  {
    hide Prefix, Shift;
    ghost var x0: seq<int>, y: seq<int> := x[..], prime[..];
    var odd: u32 := x[0] % 2;
    ghost var k: int := if odd == 1 then -1 else 0;
    ghost var e := seq(LIMBS, j requires 0 <= j < LIMBS => x0[j] - k * y[j]);
    Parity(x0);
    Parity(y);
    var acc: u32 := W32(x[0] + if odd == 1 then prime[0] else 0) / 2;
    assert 2 * acc == e[0];
    PrefixStart(e, acc);
    PrefixStart(x0, e[0]);
    PrefixNext(e, 0);
    for i := 0 to x.Length - 1
      invariant acc < 2 * BASE
      invariant prime[..] == y
      invariant forall j :: i < j < x.Length ==> x[j] == x0[j]
      invariant forall j :: 0 <= j < i ==> 0 <= x[j] < BASE
      invariant 2 * (Prefix(x[..], i) + Shift(acc, i)) == Prefix(e, i + 1)
    {
      assert x0[i + 1] < BASE && y[i + 1] < BASE;
      var temp := W32(x[i + 1] + if odd == 1 then prime[i + 1] else 0);
      assert temp == e[i + 1];
      var sum := W32(acc + temp % 2 * 0x1000_0000);
      HalfStep(sum, acc, temp, i);
      var carry := StoreLimb(x, i, sum);
      acc := W32(carry + temp / 2);
      ShiftSum(acc, carry, temp / 2, i + 1);
      PrefixNext(e, i + 1);
    }
    ghost var below: seq<int> := x[..];
    HalfEnd(x0, y, k, e, below, acc);
    x[x.Length - 1] := acc;
    assert x[..] == below[LIMBS - 1 := acc];
    Parity(x0);
  }

  lemma HalfEnd(x0: seq<int>, y: seq<int>, k: int, e: seq<int>, s: seq<int>, acc: nat)
    requires |x0| == |y| == |e| == |s| == LIMBS && Normalized(y) && (k == 0 || k == -1)
    requires (forall j :: 0 <= j < LIMBS ==> e[j] == x0[j] - k * y[j]) && Value(x0) + Value(y) < TWO261
    requires forall j :: 0 <= j < LIMBS - 1 ==> 0 <= s[j] < BASE
    requires 2 * (Prefix(s, LIMBS - 1) + Shift(acc, LIMBS - 1)) == Prefix(e, LIMBS)
    ensures acc < BASE && 2 * Value(s[LIMBS - 1 := acc]) == Value(x0) - k * Value(y)
  {
    PrefixCombine(e, 0, x0, k, y, LIMBS);
    PrefixBound(s, LIMBS - 1);
    ValueBound(y);
    ShiftConst(acc);
    var t := s[LIMBS - 1 := acc];
    PrefixSame(s, t, LIMBS - 1);
    PrefixNext(t, LIMBS - 1);
    hide Prefix, Shift;
  }

  lemma HalfStep(sum: int, acc: int, temp: int, n: nat)
    requires sum == acc + temp % 2 * 0x1000_0000
    ensures 2 * Shift(sum, n) + 2 * Shift(temp / 2, n + 1) == 2 * Shift(acc, n) + Shift(temp, n + 1)
  {
    var b, h := temp % 2, temp / 2;
    ShiftSum(sum, acc, b * 0x1000_0000, n);
    ShiftTimes(2, b * 0x1000_0000, n);
    ShiftUp(b, n);
    ShiftSum(temp, b, 2 * h, n + 1);
    ShiftTimes(2, h, n + 1);
  }
}
