/** Division by 2^29 modulo an odd number, and the constant-flow modular inverse. */
module BignumInverse {
  import opened Arith
  import opened Limbs
  import opened Words
  import opened Bits
  import opened Bignum
  import opened BignumReduce
  import opened AlmostInverse
  import Fermat

  /** Dropping bits from 32 up does not change a number modulo 2^n. */
  lemma WrapCong(z: int, n: nat)
    requires n <= 32
    ensures Cong(W32(z), z, Pow(2, n))
  {
    var m, t, q := Pow(2, n), Pow(2, 32 - n), z / 0x1_0000_0000;
    TwoTo32();
    PowAdd(2, n, 32 - n);
    Regroup(q, m, t);
    DividesIntro(m, q * (m * t), q * t);
    CongDropMultiple(z, q * 0x1_0000_0000, m);
  }

  /** w & (2^n - 1) */
  lemma Remainder(w: int, m: int)
    requires m > 0
    ensures 0 <= w % m < m && Cong(w % m, w, m)
  {
    DivMod(w, m);
    CongDrop(w, w / m, m);
    assert w - w / m * m == w % m;
  }

  function Mask(w: u32, n: nat): (r: u32)
    requires n <= 32
    ensures 0 <= r < Pow(2, n) && Cong(r, w, Pow(2, n))
  {
    PowPositive(2, n);
    Remainder(w, Pow(2, n));
    w % Pow(2, n)
  }

  // a^-1 mod 2^n
  method InverseModPowerTwo(a: u32, n: u32) returns (acc: u32)
    requires a % 2 == 1 && 1 <= n <= 32
    ensures Cong(a as int * acc, 1, Pow(2, n))
    ensures n == 1 ==> acc == W32(2 - a as int)
    ensures acc < Pow(2, n) <==> n > 1 || a == 1
  {
    hide Pow, Cong;
    ghost var m, b: nat := Pow(2, n), a - 1;
    acc := W32(2 - a as int);
    var f: u32 := W32(a - 1);
    var i: u32 := 1;
    InverseStart(a, acc, n);
    while i < n
      invariant 1 <= i <= 2 * n && (n == 1 ==> i == 1)
      invariant if i > 1 then acc < m else acc == W32(2 - a as int)
      invariant Cong(f, Pow(b, i), m) && Cong(a as int * acc, 1 - Pow(b, 2 * i), m)
      decreases 2 * n - i
    {
      var g: u32 := Mask(W32(f as int * f), n);
      var next: u32 := Mask(W32(acc as int * W32(1 + g as int)), n);
      InverseStep(a, b, f, g, acc, next, i, n);
      f, acc, i := g, next, W32(2 * i as int);
    }
    InverseEnd(a, acc, i, n);
    UnmaskedSize(a);
  }

  lemma UnmaskedSize(a: u32)
    requires a % 2 == 1
    ensures Pow(2, 1) == 2 && (W32(2 - a as int) < 2 <==> a == 1)
  {
  }

  // for n == 1 the loop is not entered, and nothing masks the result
  method UnmaskedInverse() returns (acc: u32)
    ensures acc == 0xFFFF_FFFF > Pow(2, 1)
  {
    acc := InverseModPowerTwo(3, 1);
    assert Pow(2, 1) == 2;
  }

  lemma InverseStart(a: nat, acc: u32, n: nat)
    requires a > 0 && n <= 32 && acc == W32(2 - a)
    ensures Cong(a - 1, Pow(a - 1, 1), Pow(2, n))
    ensures Cong(a * acc, 1 - Pow(a - 1, 2), Pow(2, n))
  {
    var m, b := Pow(2, n), a - 1;
    assert Pow(b, 1) == b * Pow(b, 0) == b;
    assert Pow(b, 2) == b * Pow(b, 1) == b * b;
    CongRefl(b, m);
    WrapCong(2 - a, n);
    CongRefl(a, m);
    CongMul(a, a, acc, 2 - a, m);
    assert a * (2 - a) == 1 - b * b;
  }

  lemma InverseStep(a: nat, b: nat, f: nat, g: u32, acc: nat, next: u32, i: nat, n: nat)
    requires n <= 32 && b == a - 1
    requires Cong(f, Pow(b, i), Pow(2, n)) && Cong(a * acc, 1 - Pow(b, 2 * i), Pow(2, n))
    requires g == Mask(W32(f * f), n) && next == Mask(W32(acc * W32(1 + g)), n)
    ensures Cong(g, Pow(b, 2 * i), Pow(2, n))
    ensures Cong(a * next, 1 - Pow(b, 2 * (2 * i)), Pow(2, n))
  {
    hide Pow, Cong, W32, Mask;
    var m, t := Pow(2, n), Pow(b, 2 * i);
    CongMul(f, Pow(b, i), f, Pow(b, i), m);
    PowAdd(b, i, i);
    WrapCong(f * f, n);
    CongTrans(g, W32(f * f), f * f, m);
    CongTrans(g, f * f, t, m);
    var h := W32(1 + g);
    WrapCong(1 + g, n);
    CongRefl(1, m);
    CongAdd(1, 1, g, t, m);
    CongTrans(h, 1 + g, 1 + t, m);
    WrapCong(acc * h, n);
    CongTrans(next, W32(acc * h), acc * h, m);
    CongRefl(a, m);
    CongMul(a, a, next, acc * h, m);
    CongMul(a * acc, 1 - t, h, 1 + t, m);
    Assoc(a, acc, h);
    CongTrans(a * next, (a * acc) * h, (1 - t) * (1 + t), m);
    PowAdd(b, 2 * i, 2 * i);
    assert (1 - t) * (1 + t) == 1 - t * t;
  }

  /** (a - 1)^(2 i) is a multiple of 2^(2 i), so nothing is left once n <= 2 i. */
  lemma InverseEnd(a: nat, acc: nat, i: nat, n: nat)
    requires a % 2 == 1 && n <= i && Cong(a * acc, 1 - Pow(a - 1, 2 * i), Pow(2, n))
    ensures Cong(a * acc, 1, Pow(2, n))
  {
    var m, h := Pow(2, n), (a - 1) / 2;
    assert a - 1 == 2 * h;
    PowTimes(2, h, 2 * i);
    PowAdd(2, n, 2 * i - n);
    DividesIntro(m, Pow(2, 2 * i), Pow(2, 2 * i - n));
    DividesProduct(m, Pow(2, 2 * i), Pow(h, 2 * i));
    CongDropMultiple(1, Pow(a - 1, 2 * i), m);
    CongTrans(a * acc, 1 - Pow(a - 1, 2 * i), 1, m);
  }

  lemma CongDropMultiple(x: int, y: int, m: int)
    requires Divides(m, y)
    ensures Cong(x - y, x, m)
  {
    DividesProduct(m, y, -1);
    assert (x - y) - x == -1 * y;
  }

  // x = x / 2^29 mod prime for an odd prime
  method DivideBase(x: array<u32>, prime: array<u32>)
    requires IsBignum(x) && IsBignum(prime) && x != prime && Value(prime[..]) % 2 == 1
    modifies x
    ensures IsBignum(x)
    ensures Cong(0x2000_0000 * Value(x[..]), old(Value(x[..])), Value(prime[..]))
    ensures old(Value(x[..])) < Value(prime[..]) ==> Value(x[..]) < Value(prime[..])
    ensures old(Value(x[..])) < 2 * Value(prime[..]) ==> Value(x[..]) < 2 * Value(prime[..])
  {
    ghost var x0: seq<int>, y: seq<int> := x[..], prime[..];
    Parity(y);
    var inverse := InverseModPowerTwo(prime[0], 29);
    TwoTo32();
    var m: u32 := Low(W32(x[0] as int * W32(BASE - inverse as int)));
    QuotientDigit(x0[0], y[0], inverse, m);
    ghost var k: int := m;
    ghost var e := seq(LIMBS, j requires 0 <= j < LIMBS => x0[j] + k * y[j]);
    DigitBound(m, y[0]);
    var acc: u64 := High(W64(x[0] + W64(m as int * prime[0])));
    for i := 1 to x.Length
      invariant 0 <= acc <= 0x7_FFFF_FFFF
      invariant prime[..] == y
      invariant forall j :: i <= j < x.Length ==> x[j] == x0[j]
      invariant forall j :: 0 <= j < i - 1 ==> 0 <= x[j] < BASE
      invariant 0x2000_0000 * (Prefix(x[..], i - 1) + Shift(acc, i - 1)) == Prefix(e, i)
    {
      DigitBound(m, y[i]);
      var sum := W64(acc + x[i] + W64(m as int * prime[i]));
      ShiftSum(sum, acc, e[i], i - 1);
      acc := StoreLimb(x, i - 1, sum);
    }
    ghost var below: seq<int> := x[..];
    PrefixBound(below, LIMBS - 1);
    DivideEnd(x0, y, m, e, Prefix(below, LIMBS - 1), acc);
    x[LIMBS - 1] := acc;
    PrefixSame(below, x[..], LIMBS - 1);
  }

  lemma DigitBound(m: int, y: int)
    requires 0 <= m < BASE && 0 <= y < BASE
    ensures 0 <= m * y <= 0x1FFF_FFFF * 0x1FFF_FFFF
  {
    MulMono2(m, 0x1FFF_FFFF, y, 0x1FFF_FFFF);
  }

  /** m makes the lowest limb of x + m * prime a multiple of 2^29. */
  lemma QuotientDigit(x: nat, y: nat, inverse: nat, m: int)
    requires x < BASE && y < BASE && inverse < BASE && Cong(y * inverse, 1, Pow(2, 29))
    requires m == Low(W32(x * W32(BASE - inverse)))
    ensures (x + m * y) % 0x2000_0000 == 0
  {
    var b := Pow(2, 29);
    TwoTo32();
    var t := x * (BASE - inverse);
    WrapCong(t, 29);
    CongDrop(W32(t), W32(t) / 0x2000_0000, b);
    CongTrans(m, W32(t), t, b);
    CongRefl(x, b);
    CongRefl(y, b);
    CongMul(m, t, y, y, b);
    CongMul(x, x, y * inverse, 1, b);
    var my, ty, z := m * y, t * y, x * (y * inverse);
    assert Divides(b, my - ty) && Divides(b, z - x);
    DigitIdentity(x, y, inverse, b);
    DividesIntro(b, ty + z, x * y);
    DividesSum(b, my - ty, ty + z);
    DividesSum(b, (my - ty) + (ty + z), z - x);
    assert ((my - ty) + (ty + z)) - (z - x) == x + my;
    DividesMod(b, x + my);
  }

  lemma DigitIdentity(x: int, y: int, i: int, b: int)
    ensures x * (b - i) * y + x * (y * i) == (x * y) * b
  {
    assert x * (b - i) == x * b - x * i;
  }

  lemma PrefixPlus(e: seq<int>, x: seq<int>, m: int, y: seq<int>, n: nat)
    requires n <= |e| && n <= |x| && n <= |y|
    requires forall j :: 0 <= j < n ==> e[j] == x[j] + m * y[j]
    ensures Prefix(e, n) == Prefix(x, n) + m * Prefix(y, n)
  {
    forall j | 0 <= j < n
      ensures e[j] == 0 * 0x1FFF_FFFF + x[j] - (-m) * y[j]
    {
      Negated(m, y[j]);
    }
    PrefixCombine(e, 0, x, -m, y, n);
    Negated(m, Prefix(y, n));
  }

  lemma Negated(m: int, y: int)
    ensures (-m) * y == -(m * y)
  {
  }

  lemma DivideEnd(x: seq<int>, y: seq<int>, m: int, e: seq<int>, low: int, acc: int)
    requires |x| == |y| == |e| == LIMBS && Normalized(x) && Normalized(y) && 0 <= m < BASE
    requires forall j :: 0 <= j < LIMBS ==> e[j] == x[j] + m * y[j]
    requires 0 <= low && 0x2000_0000 * (low + Shift(acc, LIMBS - 1)) == Prefix(e, LIMBS)
    ensures acc < BASE
    ensures var r := low + Shift(acc, LIMBS - 1);
            && Cong(0x2000_0000 * r, Value(x), Value(y))
            && (Value(x) < Value(y) ==> r < Value(y))
            && (Value(x) < 2 * Value(y) ==> r < 2 * Value(y))
  {
    var v, p := Value(x), Value(y);
    PrefixPlus(e, x, m, y, LIMBS);
    ValueBound(x);
    ValueBound(y);
    ShiftConst(acc);
    MulMono(m, 0x1FFF_FFFF, p);
    CongDrop(v, m, p);
  }

  ghost function Numbers(u: array<u32>, v: array<u32>, r: array<u32>, s: array<u32>, k: nat): State
    reads u, v, r, s
  {
    State(Value(u[..]), Value(v[..]), Value(r[..]), Value(s[..]), k)
  }

  ghost predicate Distinct(u: array<u32>, v: array<u32>, r: array<u32>, s: array<u32>, zero: array<u32>) {
    u != v && u != r && u != s && u != zero && v != r && v != s && v != zero && r != s && r != zero && s != zero
  }

  // one round of the constant-flow loop; the pointers are selected as the ternary macro does
  method Round(u: array<u32>, v: array<u32>, r: array<u32>, s: array<u32>, zero: array<u32>, finished: bool,
               ghost k: nat)
    requires Distinct(u, v, r, s, zero)
    requires IsBignum(u) && IsBignum(v) && IsBignum(r) && IsBignum(s) && IsBignum(zero) && Value(zero[..]) == 0
    requires Value(s[..]) <= TWO256
    requires !finished ==> Value(r[..]) <= TWO256
    modifies u, v, r, s
    ensures IsBignum(u) && IsBignum(v) && IsBignum(r) && IsBignum(s)
    ensures !finished ==> Numbers(u, v, r, s, k + 1) == Step(old(Numbers(u, v, r, s, k)))
    ensures finished ==> Value(s[..]) == old(Value(s[..]))
  {
    hide Prefix;
    ValueBound(u[..]);
    ValueBound(v[..]);
    ValueBound(r[..]);
    ValueBound(s[..]);
    var uEven := IsEven(u);
    var vEven := IsEven(v);
    var vLessU := IsLess(v, u);
    var b1 := !finished && uEven;
    var b2 := !finished && !b1 && vEven;
    var b3 := !finished && !b1 && !b2 && vLessU;
    var b4 := !finished && !b1 && !b2 && !b3;
    var minuend := if b3 then u else v;
    Subtract(minuend, if b3 || b4 then if b3 then v else u else zero, minuend);
    Add(if b3 then r else s, if b3 || b4 then if b3 then s else r else zero);
    RShift(if b1 || b3 then u else v);
    LShift(if b1 || b3 then s else r);
  }

  // s = s / 2^k mod prime, by whole limbs and then by single bits
  method DividePower(s: array<u32>, r: array<u32>, k: nat, prime: array<u32>)
    requires IsBignum(s) && IsBignum(r) && IsBignum(prime) && s != r && s != prime && r != prime && k <= ROUNDS
    requires NearTwo256(Value(prime[..])) && Value(prime[..]) % 2 == 1 && Value(s[..]) < Value(prime[..])
    modifies s, r
    ensures IsBignum(s) && 0 <= Value(s[..]) < Value(prime[..])
    ensures Cong(Pow(2, k) * Value(s[..]), old(Value(s[..])), Value(prime[..]))
  {
    ghost var s0, p, y := Value(s[..]), Value(prime[..]), prime[..];
    ghost var c: nat := 0;
    TwoTo32();
    CongRefl(s0, p);
    for i := 0 to 18
      invariant prime[..] == y && IsBignum(s) && IsBignum(r) && Value(s[..]) < p
      invariant c == 29 * if i < k / 29 then i else k / 29
      invariant Cong(Pow(2, c) * Value(s[..]), s0, p)
    {
      Copy(s, r);
      DivideBase(r, prime);
      if i < k / 29 {
        DivideStep(c, 29, Value(s[..]), Value(r[..]), s0, p);
        c := c + 29;
      }
      CMov(s, i < k / 29, r, s);
    }
    for i := 0 to 29
      invariant prime[..] == y && IsBignum(s) && IsBignum(r) && Value(s[..]) < p
      invariant c == 29 * (k / 29) + if i < k % 29 then i else k % 29
      invariant Cong(Pow(2, c) * Value(s[..]), s0, p)
    {
      Copy(s, r);
      ghost var w := Value(s[..]);
      ValueBound(s[..]);
      MultHalf(r, prime);
      if i < k % 29 {
        HalfCong(Value(r[..]), w, p);
        DivideStep(c, 1, w, Value(r[..]), s0, p);
        c := c + 1;
      }
      CMov(s, i < k % 29, r, s);
    }
    ValueBound(s[..]);
  }

  lemma DivideStep(c: nat, d: nat, s: int, r: int, s0: int, p: int)
    requires Cong(Pow(2, c) * s, s0, p) && Cong(Pow(2, d) * r, s, p)
    ensures Cong(Pow(2, c + d) * r, s0, p)
  {
    PowAdd(2, c, d);
    Assoc(Pow(2, c), Pow(2, d), r);
    CongRefl(Pow(2, c), p);
    CongMul(Pow(2, c), Pow(2, c), Pow(2, d) * r, s, p);
    CongTrans(Pow(2, c + d) * r, Pow(2, c) * s, s0, p);
  }

  lemma HalfCong(r: int, s: int, p: int)
    requires 2 * r == s || 2 * r == s + p
    ensures Cong(Pow(2, 1) * r, s, p)
  {
    PowersOfTwo();
    if 2 * r == s {
      CongRefl(s, p);
    } else {
      DividesIntro(p, 2 * r - s, 1);
    }
  }

  lemma ReducedInput(x0: int, x1: int, a: int, p: int)
    requires 0 < p && Cong(x1, x0, p) && a == x1 % p
    ensures 0 <= a < p && Cong(a, x0, p) && (a == 0 <==> Divides(p, x0))
    ensures Coprime(x0, p) ==> Coprime(a, p)
  {
    DividesIntro(p, a - x1, -(x1 / p));
    CongTrans(a, x1, x0, p);
    CongSym(a, x0, p);
    if Divides(p, x0) {
      DividesSum(p, a - x0, x0);
      DividesLess(p, a);
    }
    if Coprime(x0, p) {
      forall d | d > 0 && Divides(d, a) && Divides(d, p)
        ensures d == 1
      {
        DividesTrans(d, p, a - x0);
        DividesSum(d, a, a - x0);
      }
    }
  }

  // the main loop: 2 * LIMBS * 29 rounds on u = prime, v = x, r = 0, s = 1
  method AlmostInverseLoop(x: array<u32>, prime: array<u32>, s: array<u32>, r: array<u32>) returns (k: nat)
    requires IsBignum(x) && IsBignum(prime) && s != r && s != x && s != prime && r != x && r != prime
    requires s.Length == LIMBS && r.Length == LIMBS
    requires NearTwo256(Value(prime[..])) && Value(prime[..]) % 2 == 1
    requires 0 <= Value(x[..]) < Value(prime[..])
    requires Value(x[..]) == 0 || Coprime(Value(x[..]), Value(prime[..]))
    modifies s, r
    ensures IsBignum(s) && IsBignum(r)
    ensures k == Run(Value(x[..]), Value(prime[..]), ROUNDS).k
    ensures Value(s[..]) == Run(Value(x[..]), Value(prime[..]), ROUNDS).s
  {
    hide Run, Step, Prefix;
    ghost var a, p := Value(x[..]), Value(prime[..]);
    RunStart(a, p);
    var u := new u32[LIMBS](_ => 0);
    var v := new u32[LIMBS](_ => 0);
    var zero := new u32[LIMBS](_ => 0);
    Copy(prime, u);
    Copy(x, v);
    SetSmall(s, 1);
    SetSmall(r, 0);
    SetSmall(zero, 0);
    k := 0;
    var finished := false;
    for i := 0 to ROUNDS
      invariant IsBignum(u) && IsBignum(v) && IsBignum(r) && IsBignum(s) && IsBignum(zero) && Value(zero[..]) == 0
      invariant k == Run(a, p, i).k && Value(s[..]) == Run(a, p, i).s
      invariant finished ==> Run(a, p, i).v == 1
      invariant !finished ==> Numbers(u, v, r, s, k) == Run(a, p, i)
    {
      RunBounds(a, p, i);
      RunNext(a, p, i);
      var vIsOne := IsOne(v);
      finished := finished || vIsOne;
      Round(u, v, r, s, zero, finished, k);
      k := if finished then k else k + 1;
    }
  }

  lemma InverseResult(x0: int, a: int, s0: int, s: int, k: nat, p: int)
    requires p > 1 && p % 2 == 1 && Cong(a, x0, p)
    requires Cong(a * s0, Pow(2, k), p) && Cong(Pow(2, k) * s, s0, p)
    ensures (x0 * s) % p == 1
  {
    InverseFrom(a, s0, s, k, p);
    CongSym(a, x0, p);
    CongRefl(s, p);
    CongMul(x0, a, s, s, p);
    CongTrans(x0 * s, a * s, 1, p);
    CongMod(x0 * s, 1, p);
    DivModUnique(1, p, 0, 1);
  }

  // x = x^-1 mod prime, or 0 for a multiple of the prime
  method InverseFast(x: array<u32>, prime: array<u32>)
    requires IsBignum(x) && IsBignum(prime) && x != prime
    requires NearTwo256(Value(prime[..])) && Value(prime[..]) % 2 == 1
    requires Coprime(Value(x[..]), Value(prime[..])) || Divides(Value(prime[..]), Value(x[..]))
    modifies x
    ensures IsBignum(x) && 0 <= Value(x[..]) < Value(prime[..])
    ensures Divides(Value(prime[..]), old(Value(x[..]))) ==> Value(x[..]) == 0
    ensures !Divides(Value(prime[..]), old(Value(x[..]))) ==> (old(Value(x[..])) * Value(x[..])) % Value(prime[..]) == 1
  {
    ghost var x0, p := Value(x[..]), Value(prime[..]);
    FastMod(x, prime);
    ghost var x1 := Value(x[..]);
    Mod(x, prime);
    ghost var a := Value(x[..]);
    ReducedInput(x0, x1, a, p);
    var r := new u32[LIMBS](_ => 0);
    var s := new u32[LIMBS](_ => 0);
    var k := AlmostInverseLoop(x, prime, s, r);
    ghost var s0 := Value(s[..]);
    RunBounds(a, p, ROUNDS);
    if a > 0 {
      RunEnds256(a, p);
    } else {
      RunZero(p, ROUNDS);
    }
    DividePower(s, r, k, prime);
    if a > 0 {
      InverseResult(x0, a, s0, Value(s[..]), k, p);
    }
    var xIsZero := IsZero(x);
    CMov(x, xIsZero, x, s);
  }

  /** For a prime modulus every number meets the requirement of InverseFast. */
  lemma PrimeModulus(x: int, p: int)
    requires Fermat.IsPrime(p)
    ensures Coprime(x, p) || Divides(p, x)
  {
  }
}
