/** Long multiplication and lazy reduction of the 18-limb product. */
module BignumMultiply {
  import opened Arith
  import opened Limbs
  import opened Words
  import opened Bignum

  /** The sum of k[j] * x[c - j] over the first m limbs of k: part of column c of the product. */
  ghost function Column(k: seq<int>, x: seq<int>, c: nat, m: nat): int
    requires m <= |k|
  {
    if m == 0 then 0
    else Column(k, x, c, m - 1) + if m - 1 <= c < m - 1 + |x| then k[m - 1] * x[c - (m - 1)] else 0
  }

  /** The first n columns, built from the first m limbs of k. */
  ghost function Columns(k: seq<int>, x: seq<int>, m: nat, n: nat): int
    requires m <= |k|
  {
    if n == 0 then 0 else Columns(k, x, m, n - 1) + Shift(Column(k, x, n - 1, m), n - 1)
  }

  /** x moved up by m limbs, cut to n limbs. */
  ghost function Moved(x: seq<int>, m: nat, n: nat): int {
    if n == 0 then 0
    else Moved(x, m, n - 1) + if m <= n - 1 < m + |x| then Shift(x[n - 1 - m], n - 1) else 0
  }

  lemma {:induction false} MovedIs(x: seq<int>, m: nat, n: nat)
    ensures Moved(x, m, n) == Shift(Prefix(x, if n <= m then 0 else if n - m <= |x| then n - m else |x|), m)
  {
    ShiftZero(m);
    if n > 0 {
      MovedIs(x, m, n - 1);
      if m <= n - 1 < m + |x| {
        var j := n - 1 - m;
        ShiftSum(Prefix(x, j + 1), Prefix(x, j), Shift(x[j], j), m);
        ShiftShift(x[j], j, m);
      }
    }
  }

  lemma {:induction false} OneMoreLimb(k: seq<int>, x: seq<int>, m: nat, n: nat)
    requires m < |k|
    ensures Columns(k, x, m + 1, n) == Columns(k, x, m, n) + k[m] * Moved(x, m, n)
  {
    if n > 0 {
      OneMoreLimb(k, x, m, n - 1);
      var c := n - 1;
      if m <= c < m + |x| {
        ShiftSum(Column(k, x, c, m + 1), Column(k, x, c, m), k[m] * x[c - m], c);
        ShiftTimes(k[m], x[c - m], c);
        Distribute(k[m], Moved(x, m, c), Shift(x[c - m], c));
      }
    }
  }

  /** All the columns together are the product. */
  lemma {:induction false} ColumnsAreProduct(k: seq<int>, x: seq<int>, m: nat, n: nat)
    requires m <= |k| && m + |x| <= n + 1
    ensures Columns(k, x, m, n) == Prefix(k, m) * Value(x)
  {
    if m == 0 {
      NoColumns(k, x, n);
    } else {
      ColumnsAreProduct(k, x, m - 1, n);
      OneMoreLimb(k, x, m - 1, n);
      MovedIs(x, m - 1, n);
      assert Moved(x, m - 1, n) == Shift(Value(x), m - 1);
      ShiftTimes(Value(x), k[m - 1], m - 1);
      ShiftTimes(k[m - 1], Value(x), m - 1);
      Distribute(Value(x), Prefix(k, m - 1), Shift(k[m - 1], m - 1));
    }
  }

  lemma {:induction false} NoColumns(k: seq<int>, x: seq<int>, n: nat)
    ensures Columns(k, x, 0, n) == 0
  {
    if n > 0 {
      NoColumns(k, x, n - 1);
      ShiftZero(n - 1);
    }
  }

  lemma {:induction false} ColumnBound(k: seq<int>, x: seq<int>, c: nat, m: nat)
    requires m <= |k| && Normalized(k) && Normalized(x)
    ensures 0 <= Column(k, x, c, m) <= m * 0x400_0000_0000_0000
  {
    if m > 0 {
      ColumnBound(k, x, c, m - 1);
      if m - 1 <= c < m - 1 + |x| {
        MulMono2(k[m - 1], 0x1FFF_FFFF, x[c - (m - 1)], 0x1FFF_FFFF);
      }
    }
  }

  /** Limbs of k that reach outside x add nothing. */
  lemma {:induction false} ColumnSame(k: seq<int>, x: seq<int>, c: nat, m: nat, n: nat)
    requires m <= n <= |k|
    requires m == n || c < m || n + |x| <= c + 1
    ensures Column(k, x, c, n) == Column(k, x, c, m)
  {
    if m < n {
      ColumnSame(k, x, c, m, n - 1);
    }
  }

  /** The product of two bignums leaves a carry of one limb after 17 columns. */
  lemma TopLimb(k: seq<int>, x: seq<int>, low: int, acc: int)
    requires |k| == |x| == LIMBS && Normalized(k) && Normalized(x)
    requires 0 <= low && low + Shift(acc, 17) == Value(k) * Value(x)
    ensures acc < BASE
  {
    PrefixBound(k, LIMBS);
    PrefixBound(x, LIMBS);
    hide Prefix, Shift;
    var top := Shift(1, LIMBS);
    MulStrict(Value(k), top, Value(x), top);
    ShiftTimes(top, 1, LIMBS);
    ShiftShift(1, LIMBS, LIMBS);
    ShiftUp(1, 17);
    assert Shift(0x2000_0000, 17) == top * top;
    ShiftMono(0x2000_0000, acc, 17);
  }

  lemma ColumnStart(k: seq<int>, x: seq<int>, c: nat)
    ensures Column(k, x, c, 0) == 0
  {
  }

  lemma ColumnNext(k: seq<int>, x: seq<int>, c: nat, m: nat)
    requires m < |k| && m <= c < m + |x| && Normalized(k) && Normalized(x)
    ensures Column(k, x, c, m + 1) == Column(k, x, c, m) + k[m] * x[c - m]
    ensures 0 <= k[m] * x[c - m] <= 0x400_0000_0000_0000
  {
    MulMono2(k[m], 0x1FFF_FFFF, x[c - m], 0x1FFF_FFFF);
  }

  // the inner loop of bn_multiply_long: acc += k[j] * x[c - j] for lo <= j < hi
  method AddColumn(k: array<u32>, x: array<u32>, c: nat, lo: nat, hi: nat, carry: u64) returns (acc: u64)
    requires IsBignum(k) && IsBignum(x) && carry <= 0x7_FFFF_FFFF
    requires lo <= hi <= LIMBS && c < lo + LIMBS && hi <= c + 1
    requires lo == 0 || lo + LIMBS == c + 1
    requires hi == LIMBS || hi == c + 1
    ensures acc == carry + Column(k[..], x[..], c, LIMBS)
    ensures High(acc) <= 0x7_FFFF_FFFF
  {
    hide Column;
    ghost var k0: seq<int>, x0: seq<int> := k[..], x[..];
    acc := carry;
    ColumnSame(k0, x0, c, 0, lo);
    ColumnStart(k0, x0, c);
    for j := lo to hi
      invariant acc == carry + Column(k0, x0, c, j)
    {
      ColumnBound(k0, x0, c, j);
      ColumnNext(k0, x0, c, j);
      acc := W64(acc + W64(k[j] as int * x[c - j] as int));
    }
    ColumnSame(k0, x0, c, hi, LIMBS);
    ColumnBound(k0, x0, c, LIMBS);
  }

  // res = k * x
  method MultiplyLong(k: array<u32>, x: array<u32>, res: array<u32>)
    requires IsBignum(k) && IsBignum(x) && res.Length == 2 * LIMBS && res != k && res != x
    modifies res
    ensures Normalized(res[..]) && Value(res[..]) == Value(k[..]) * Value(x[..])
  {
    ghost var k0: seq<int>, x0: seq<int> := k[..], x[..];
    var acc: u64 := 0;
    // lower half
    for i := 0 to LIMBS
      invariant 0 <= acc <= 0x7_FFFF_FFFF
      invariant k[..] == k0 && x[..] == x0
      invariant forall j :: 0 <= j < i ==> 0 <= res[j] < BASE
      invariant Prefix(res[..], i) + Shift(acc, i) == Columns(k0, x0, LIMBS, i)
    {
      var sum := AddColumn(k, x, i, 0, i + 1, acc);
      ShiftSum(sum, acc, Column(k0, x0, i, LIMBS), i);
      acc := StoreLimb(res, i, sum);
    }
    // upper half
    for i := LIMBS to 2 * LIMBS - 1
      invariant 0 <= acc <= 0x7_FFFF_FFFF
      invariant k[..] == k0 && x[..] == x0
      invariant forall j :: 0 <= j < i ==> 0 <= res[j] < BASE
      invariant Prefix(res[..], i) + Shift(acc, i) == Columns(k0, x0, LIMBS, i)
    {
      var sum := AddColumn(k, x, i, i - LIMBS + 1, LIMBS, acc);
      ShiftSum(sum, acc, Column(k0, x0, i, LIMBS), i);
      acc := StoreLimb(res, i, sum);
    }
    ColumnsAreProduct(k0, x0, LIMBS, 2 * LIMBS - 1);
    PrefixBound(res[..], 2 * LIMBS - 1);
    TopLimb(k0, x0, Prefix(res[..], 2 * LIMBS - 1), acc);
    ghost var below: seq<int> := res[..];
    res[2 * LIMBS - 1] := acc;
    PrefixSame(below, res[..], 2 * LIMBS - 1);
  }

  // ------------------------------------------------------------------ reduction

  const TWO31 := 0x8000_0000
  const TWO287 := 0x80000000_00000000_00000000_00000000_00000000_00000000_00000000_00000000_00000000

  /** The two limbs around bit 256 give the exact quotient by 2^256, and it fits 31 bits. */
  lemma Estimate(w: seq<int>, p: int)
    requires |w| == 10 && Normalized(w) && Value(w) < TWO287 && NearTwo256(p)
    ensures var coef := w[8] / 0x100_0000 + w[9] * 0x20;
            && w[9] < 0x400_0000 && 0 <= coef < TWO31
            && 0 <= Value(w) - coef * TWO256 < TWO256
            && 0 <= Value(w) - coef * p < 2 * p
  {
    PrefixBound(w, 8);
    ShiftConst(1);
    ShiftConst(w[8]);
    ShiftConst(w[9]);
    assert Value(w) == Prefix(w, 9) + Shift(w[9], 9);
    assert Prefix(w, 9) == Prefix(w, 8) + Shift(w[8], 8);
    var coef, rest := w[8] / 0x100_0000 + w[9] * 0x20, w[8] % 0x100_0000;
    assert w[8] == w[8] / 0x100_0000 * 0x100_0000 + rest;
    assert Value(w) == Prefix(w, 8) + rest * 0x100_00000000_00000000_00000000_00000000_00000000_00000000_00000000
                       + coef * 0x1_00000000_00000000_00000000_00000000_00000000_00000000_00000000_00000000;
    MulMono2(coef, 0x7FFF_FFFF, TWO256 - p, TWO224);
    Distribute(coef, TWO256 - p, p);
  }

  const TWO519 := 0x80_00000000_00000000_00000000_00000000_00000000_00000000_00000000_00000000_00000000_00000000_00000000_00000000_00000000_00000000_00000000_00000000

  lemma StepTerm(y: int, coef: int)
    requires 0 <= y < BASE && 0 <= coef < TWO31
    ensures 0 <= y * coef <= 0x7FFF_FFFF * 0x1FFF_FFFF
  {
    MulMono2(y, 0x1FFF_FFFF, coef, 0x7FFF_FFFF);
  }

  /** A number below 2^(256 + 29 d + 31) has at most ten limbs from limb d on. */
  lemma Window(s: seq<int>, d: nat)
    requires |s| == 2 * LIMBS && Normalized(s) && d < LIMBS && Value(s) < Shift(TWO287, d)
    ensures Value(s) == Prefix(s, d) + Shift(Value(s[d..d + 10]), d)
    ensures 0 <= Value(s[d..d + 10]) < TWO287
    ensures forall j :: d + 10 <= j < |s| ==> s[j] == 0
  {
    var w, t := s[d..d + 10], s[d..];
    SplitAt(s, d);
    SuffixDrop(s, d, 0);
    ValueIsSuffix(t);
    PrefixBound(s, d);
    SuffixZero(s, d);
    ShiftMono(TWO287, Value(t), d);
    SplitAt(t, 10);
    PrefixSame(t, w, 10);
    SuffixDrop(s, d, 10);
    SuffixZero(s, d + 10);
    PrefixBound(w, 10);
    ShiftConst(1);
    ShiftMono(1, Suffix(s, d + 10), 10);
    ShiftZero(10);
    assert Shift(1, 10) == 0x2000_0000 * Shift(1, 9);
  }

  /** Limb i of 2^31 * (2^261 - 1) + window - coef * prime, before carries. */
  ghost function Terms(s: seq<int>, d: nat, coef: int, y: seq<int>): (e: seq<int>)
    requires d + LIMBS <= |s| && |y| == LIMBS
    ensures |e| == LIMBS
    ensures forall j :: 0 <= j < LIMBS ==> e[j] == 0x8000_0000 * 0x1FFF_FFFF + s[d + j] - coef * y[j]
  {
    seq(LIMBS, j requires 0 <= j < LIMBS => 0x8000_0000 * 0x1FFF_FFFF + s[d + j] - coef * y[j])
  }

  // the loop of bn_multiply_reduce_step: subtract coef * prime from the window at limb d
  method SubtractMultiple(res: array<u32>, prime: array<u32>, coef: u32, d: nat) returns (acc: u64)
    requires res.Length == 2 * LIMBS && Normalized(res[..]) && res != prime && d < LIMBS
    requires IsBignum(prime) && coef < TWO31
    modifies res
    ensures forall j :: 0 <= j < d || d + LIMBS <= j < res.Length ==> res[j] == old(res[j])
    ensures forall j :: d <= j < d + LIMBS ==> 0 <= res[j] < BASE
    ensures Prefix(res[..], d + LIMBS) + Shift(acc, d + LIMBS) == old(Prefix(res[..], d))
         + Shift(Prefix(Terms(old(res[..]), d, coef, prime[..]), LIMBS) + TWO31, d)
  {
    hide Prefix, Shift;
    ghost var s0: seq<int>, y: seq<int> := res[..], prime[..];
    ghost var e := Terms(s0, d, coef, y);
    acc := TWO31;
    PrefixStart(e, 0);
    for i := 0 to LIMBS
      invariant 0 <= acc <= 0x7_FFFF_FFFF
      invariant prime[..] == y
      invariant forall j :: 0 <= j < d || d + i <= j < res.Length ==> res[j] == s0[j]
      invariant forall j :: d <= j < d + i ==> 0 <= res[j] < BASE
      invariant Prefix(res[..], d + i) + Shift(acc, d + i) == Prefix(s0, d) + Shift(Prefix(e, i) + TWO31, d)
    {
      StepTerm(y[i], coef);
      var sum := W64(acc + W64(W64(0x1FFF_FFFF * 0x8000_0000) + res[d + i] - W64(prime[i] as int * coef)));
      OneMoreTerm(sum, acc, e, i, d);
      acc := StoreLimb(res, d + i, sum);
    }
  }

  // res = res - (res / 2^(256 + 29 d)) * prime * 2^(29 d)
  method ReduceStep(res: array<u32>, prime: array<u32>, d: nat)
    requires res.Length == 2 * LIMBS && Normalized(res[..]) && res != prime && d < LIMBS
    requires IsBignum(prime) && NearTwo256(Value(prime[..]))
    requires Value(res[..]) < Shift(TWO287, d)
    modifies res
    ensures Normalized(res[..])
    ensures Shift(TWO256, d) > 0
    ensures Value(res[..]) == old(Value(res[..])) - old(Value(res[..])) / Shift(TWO256, d) * Shift(Value(prime[..]), d)
    ensures Value(res[..]) < Shift(2 * Value(prime[..]), d)
    ensures Cong(Value(res[..]), old(Value(res[..])), Value(prime[..]))
  {
    ghost var s0: seq<int>, y: seq<int> := res[..], prime[..];
    Window(s0, d);
    Estimate(s0[d..d + 10], Value(y));
    var coef: u32 := W32(res[d + LIMBS - 1] / 0x100_0000 + W32(res[d + LIMBS] * 0x20));
    var acc := SubtractMultiple(res, prime, coef, d);
    ghost var s1: seq<int> := res[..];
    StepEnds(s0, s1, y, d, coef, acc);
    res[d + LIMBS] := 0;
    ClearTop(s1, res[..], d + LIMBS);
  }

  lemma OneMoreTerm(sum: int, acc: int, e: seq<int>, i: nat, d: nat)
    requires i < |e| && sum == acc + e[i]
    ensures Shift(sum, d + i) - Shift(acc, d + i)
         == Shift(Prefix(e, i + 1) + TWO31, d) - Shift(Prefix(e, i) + TWO31, d)
  {
    ShiftSum(sum, acc, e[i], d + i);
    ShiftShift(e[i], i, d);
    ShiftSum(Prefix(e, i + 1) + TWO31, Prefix(e, i) + TWO31, Shift(e[i], i), d);
  }

  lemma ClearTop(s: seq<int>, r: seq<int>, n: nat)
    requires n < |s| && r == s[n := 0]
    requires forall j :: 0 <= j < n ==> 0 <= s[j] < BASE
    requires forall j :: n < j < |s| ==> s[j] == 0
    ensures Normalized(r) && Value(r) == Prefix(s, n)
  {
    PrefixSame(s, r, n);
    SplitAt(r, n);
    SuffixZero(r, n);
    ShiftZero(n);
  }

  /** The pass ends with the carry it began with less the limb that is cleared afterwards. */
  lemma LastCarry(low: int, acc: int, below: int, t: int, c: int, d: nat)
    requires 0 <= low < Shift(1, d + LIMBS) && 0 <= below < Shift(1, d) && 0 <= t < TWO261
    requires low + Shift(acc, d + LIMBS) == below + Shift(t + Shift(c, LIMBS), d)
    ensures acc == c && low == below + Shift(t, d)
  {
    ShiftAdd(t, Shift(c, LIMBS), d);
    ShiftShift(c, LIMBS, d);
    ShiftAdd(t, 1, d);
    ShiftMono(0, t, d);
    ShiftZero(d);
    ShiftConst(1);
    ShiftMono(t + 1, Shift(1, LIMBS), d);
    ShiftShift(1, LIMBS, d);
    ShiftAdd(c, 1, d + LIMBS);
    CarryIs(low, acc, c, d + LIMBS);
  }

  lemma Quotient(v: int, below: int, w: int, coef: int, d: nat)
    requires v == below + Shift(w, d) && 0 <= below < Shift(1, d)
    requires 0 <= w - coef * TWO256 < TWO256
    ensures Shift(TWO256, d) > 0 && v / Shift(TWO256, d) == coef
  {
    var rest := w - coef * TWO256;
    ShiftMono(0, TWO256, d);
    ShiftMono(0, rest, d);
    ShiftMono(rest + 1, TWO256, d);
    ShiftZero(d);
    ShiftAdd(rest, 1, d);
    ShiftSum(w, rest, coef * TWO256, d);
    ShiftTimes(coef, TWO256, d);
    DivModUnique(v, Shift(TWO256, d), coef, below + Shift(rest, d));
  }

  lemma StepEnds(s: seq<int>, r: seq<int>, y: seq<int>, d: nat, coef: int, acc: int)
    requires |s| == |r| == 2 * LIMBS && |y| == LIMBS && d < LIMBS && Normalized(s) && Normalized(y)
    requires NearTwo256(Value(y)) && Value(s) < Shift(TWO287, d)
    requires coef == s[d + 8] / 0x100_0000 + s[d + 9] * 0x20
    requires forall j :: 0 <= j < d + LIMBS ==> 0 <= r[j] < BASE
    requires Prefix(r, d + LIMBS) + Shift(acc, d + LIMBS) == Prefix(s, d)
           + Shift(Prefix(Terms(s, d, coef, y), LIMBS) + TWO31, d)
    ensures Shift(TWO256, d) > 0
    ensures Prefix(r, d + LIMBS) == Value(s) - Value(s) / Shift(TWO256, d) * Shift(Value(y), d)
    ensures Prefix(r, d + LIMBS) < Shift(2 * Value(y), d)
    ensures Cong(Prefix(r, d + LIMBS), Value(s), Value(y))
  {
    var w, p, low := s[d..d + 10], Value(y), Prefix(r, d + LIMBS);
    Window(s, d);
    Estimate(w, p);
    var t := Value(w) - coef * p;
    WindowSum(w, y, coef, Terms(s, d, coef, y));
    PrefixBound(r, d + LIMBS);
    PrefixBound(s, d);
    LastCarry(low, acc, Prefix(s, d), t, TWO31 - w[9], d);
    Quotient(Value(s), Prefix(s, d), Value(w), coef, d);
    StepValue(Value(s), low, Prefix(s, d), Value(w), coef, p, t, d);
  }

  lemma WindowSum(w: seq<int>, y: seq<int>, coef: int, e: seq<int>)
    requires |w| == 10 && |y| == |e| == LIMBS
    requires forall j :: 0 <= j < LIMBS ==> e[j] == 0x8000_0000 * 0x1FFF_FFFF + w[j] - coef * y[j]
    ensures Prefix(e, LIMBS) + TWO31 == Value(w) - coef * Value(y) + Shift(TWO31 - w[9], LIMBS)
  {
    PrefixCombine(e, 0x8000_0000, w, coef, y, LIMBS);
    ShiftAdd(TWO31, w[9], LIMBS);
    ShiftTimes(0x8000_0000, 1, LIMBS);
  }

  lemma StepValue(v: int, low: int, below: int, w: int, coef: int, p: int, t: int, d: nat)
    requires t == w - coef * p < 2 * p
    requires v == below + Shift(w, d) && 0 <= below < Shift(1, d)
    requires low == below + Shift(t, d)
    ensures low == v - coef * Shift(p, d) && low < Shift(2 * p, d) && Cong(low, v, p)
  {
    ShiftSum(w, t, coef * p, d);
    ShiftTimes(coef, p, d);
    ShiftAdd(t, 1, d);
    ShiftMono(t + 1, 2 * p, d);
    ShiftIs(p, d);
    CongScaled(v, low, coef, p, Shift(p, d), Shift(1, d));
  }

  lemma CongScaled(v: int, low: int, k: int, p: int, sp: int, s: int)
    requires sp == p * s && low == v - k * sp
    ensures Cong(low, v, p)
  {
    Regroup(k, p, s);
    CongDrop(v, k * s, p);
  }

  // x mod prime, partly reduced, for x < 2^519
  method Reduce(x: array<u32>, prime: array<u32>)
    requires x.Length == 2 * LIMBS && Normalized(x[..]) && x != prime
    requires IsBignum(prime) && NearTwo256(Value(prime[..]))
    requires Value(x[..]) < TWO519
    modifies x
    ensures Normalized(x[..]) && Value(x[..]) < 2 * Value(prime[..])
    ensures Cong(Value(x[..]), old(Value(x[..])), Value(prime[..]))
  {
    ghost var v, y, p := Value(x[..]), prime[..], Value(prime[..]);
    ShiftConst(0x80000000_00000000_00000000_00000000_00000000_00000000_00000000_00000000_00000000);
    CongRefl(v, p);
    var i := LIMBS;
    while i > 0
      invariant 0 <= i <= LIMBS
      invariant Normalized(x[..]) && prime[..] == y
      invariant Cong(Value(x[..]), v, p)
      invariant if i == LIMBS then Value(x[..]) < Shift(TWO287, i - 1) else Value(x[..]) < Shift(2 * p, i)
    {
      ghost var w := Value(x[..]);
      ShiftUp(2 * p, i - 1);
      ShiftMono(0x2000_0000 * (2 * p), TWO287, i - 1);
      i := i - 1;
      ReduceStep(x, prime, i);
      CongTrans(Value(x[..]), w, v, p);
    }
  }

  // x = k * x mod prime, partly reduced; k and x may be the same array
  method Multiply(k: array<u32>, x: array<u32>, prime: array<u32>)
    requires IsBignum(k) && IsBignum(x) && x != prime
    requires IsBignum(prime) && NearTwo256(Value(prime[..]))
    requires Value(k[..]) * Value(x[..]) < TWO519
    modifies x
    ensures IsBignum(x) && Value(x[..]) < 2 * Value(prime[..])
    ensures Cong(Value(x[..]), old(Value(k[..])) * old(Value(x[..])), Value(prime[..]))
  {
    var res := new u32[2 * LIMBS](_ => 0);
    MultiplyLong(k, x, res);
    Reduce(res, prime);
    ghost var r := res[..];
    LowerHalf(r);
    for i := 0 to LIMBS
      invariant forall j :: 0 <= j < i ==> x[j] == res[j]
      invariant res[..] == r
    {
      x[i] := res[i];
    }
    PrefixSame(res[..], x[..], LIMBS);
  }

  /** A number below 2^261 is in the lower nine limbs. */
  lemma LowerHalf(s: seq<int>)
    requires |s| == 2 * LIMBS && Normalized(s) && Value(s) < TWO261
    ensures Value(s) == Prefix(s, LIMBS)
  {
    SplitAt(s, LIMBS);
    SuffixZero(s, LIMBS);
    PrefixBound(s, LIMBS);
    ShiftConst(Suffix(s, LIMBS));
  }
}
