/** Modular exponentiation and the square root for primes that are 3 modulo 4. */
module BignumPower {
  import opened Arith
  import opened Limbs
  import opened Words
  import opened Bignum
  import opened Fermat
  import opened BignumReduce
  import opened BignumMultiply

  lemma ProductFits(a: int, b: int)
    requires 0 <= a < TWO259 && 0 <= b < TWO259
    ensures a * b < TWO519
  {
    MulMono2(a, TWO259, b, TWO259);
    assert TWO259 * TWO259 < TWO519;
  }

  /** Squaring doubles the exponent, multiplying adds them. */
  lemma PowStep(r: int, a: int, b: int, v: int, m: nat, n: nat, p: int)
    requires Cong(r, a * b, p) && Cong(a, Pow(v, m), p) && Cong(b, Pow(v, n), p)
    ensures Cong(r, Pow(v, m + n), p)
  {
    CongMul(a, Pow(v, m), b, Pow(v, n), p);
    PowAdd(v, m, n);
    CongTrans(r, a * b, Pow(v, m + n), p);
  }

  // the inner loop of bn_power_mod: the 29 exponent bits of one limb, fewer for the last one
  method PowerLimb(limb0: u32, last: bool, prime: array<u32>, acc: array<u32>, res: array<u32>,
                   ghost v: int, ghost done: nat, ghost w: nat)
    requires limb0 < BASE && IsBignum(prime) && NearTwo256(Value(prime[..]))
    requires acc != prime && res != prime && acc != res
    requires IsBignum(acc) && IsBignum(res) && Value(acc[..]) < TWO259 && Value(res[..]) < 2 * Value(prime[..])
    requires Cong(Value(acc[..]), Pow(v, w), Value(prime[..])) && Cong(Value(res[..]), Pow(v, done), Value(prime[..]))
    modifies acc, res
    ensures IsBignum(acc) && IsBignum(res) && Value(acc[..]) < TWO259 && Value(res[..]) < 2 * Value(prime[..])
    ensures limb0 * w >= 0 && Cong(Value(res[..]), Pow(v, done + limb0 * w), Value(prime[..]))
    ensures !last ==> Cong(Value(acc[..]), Pow(v, 0x2000_0000 * w), Value(prime[..]))
  {
    hide Cong, Value;
    var limb := limb0;
    ghost var y, p := prime[..], Value(prime[..]);
    ghost var d: nat, u: nat := done, w;
    assert Pow(2, 29) == 0x2000_0000 by { Bits.PowersOfTwo(); }
    for j := 0 to 29
      invariant prime[..] == y
      invariant 0 <= limb < Pow(2, 29 - j)
      invariant IsBignum(acc) && IsBignum(res) && Value(acc[..]) < TWO259 && Value(res[..]) < 2 * p
      invariant d + limb * u == done + limb0 * w
      invariant !last ==> u * Pow(2, 29 - j) == 0x2000_0000 * w
      invariant Cong(Value(acc[..]), Pow(v, u), p) && Cong(Value(res[..]), Pow(v, d), p)
    {
      if last && limb == 0 {
        break;
      }
      ghost var a, r := Value(acc[..]), Value(res[..]);
      ValueBound(acc[..]);
      ValueBound(res[..]);
      HalveExponent(limb, d, u, done + limb0 * w);
      if limb % 2 == 1 {
        ProductFits(a, r);
        Multiply(acc, res, prime);
        PowStep(Value(res[..]), a, r, v, u, d, p);
        d := u + d;
      }
      limb := limb / 2;
      ProductFits(a, a);
      Multiply(acc, acc, prime);
      PowStep(Value(acc[..]), a, a, v, u, u, p);
      MoveTwo(u, Pow(2, 28 - j));
      u := u + u;
    }
  }

  lemma HalveExponent(limb: nat, d: int, u: int, total: int)
    requires d + limb * u == total
    ensures (d + limb % 2 * u) + limb / 2 * (u + u) == total
  {
    var h, b := limb / 2, limb % 2;
    assert (2 * h + b) * u == h * (u + u) + b * u;
  }

  lemma MoveTwo(u: int, q: int)
    ensures (u + u) * q == u * (2 * q)
  {
  }

  // res = x^e mod prime, partly reduced; x and res may be the same array
  method PowerMod(x: array<u32>, e: array<u32>, prime: array<u32>, res: array<u32>)
    requires IsBignum(x) && Value(x[..]) < TWO259 && IsBignum(e) && IsBignum(prime) && NearTwo256(Value(prime[..]))
    requires res.Length == LIMBS && res != e && res != prime
    modifies res
    ensures IsBignum(res) && Value(res[..]) < 2 * Value(prime[..])
    ensures old(Value(e[..])) >= 0
    ensures Cong(Value(res[..]), Pow(old(Value(x[..])), old(Value(e[..]))), Value(prime[..]))
  {
    ghost var v, p, n: seq<int>, y := Value(x[..]), Value(prime[..]), e[..], prime[..];
    ValueBound(n);
    var acc := new u32[LIMBS](_ => 0);
    Copy(x, acc);
    SetSmall(res, 1);
    assert Pow(v, 1) == v * Pow(v, 0) == v;
    CongRefl(v, p);
    CongRefl(1, p);
    for i := 0 to e.Length
      invariant e[..] == n && prime[..] == y
      invariant IsBignum(acc) && IsBignum(res) && Value(res[..]) < 2 * p && Value(acc[..]) < TWO259
      invariant 0 <= Prefix(n, i) && 0 < Shift(1, i)
      invariant i < e.Length ==> Cong(Value(acc[..]), Pow(v, Shift(1, i)), p)
      invariant Cong(Value(res[..]), Pow(v, Prefix(n, i)), p)
    {
      PowerLimb(e[i], i == LIMBS - 1, prime, acc, res, v, Prefix(n, i), Shift(1, i));
      ShiftIs(n[i], i);
    }
  }

  ghost predicate IsSquare(v: int, p: int) { exists y: nat :: Cong(v, y * y, p) }

  /** Lagrange's formula: modulo a prime that is 3 mod 4, x^((p + 1) / 4) is a root of every square x. */
  lemma RootOfSquare(v: nat, r: int, p: nat)
    requires IsPrime(p) && p % 4 == 3 && IsSquare(v, p)
    requires Cong(r, Pow(v, (p + 1) / 4), p)
    ensures Cong(r * r, v, p)
  {
    var k := (p + 1) / 4;
    var y: nat :| Cong(v, y * y, p);
    CongPow(v, y * y, k, p);
    CongTrans(r, Pow(v, k), Pow(y * y, k), p);
    PowTimes(y, y, k);
    PowAdd(y, k, k);
    CongMul(r, Pow(y, 2 * k), r, Pow(y, 2 * k), p);
    PowAdd(y, 2 * k, 2 * k);
    assert Pow(y, p + 1) == y * Pow(y, p);
    FermatLittle(y, p);
    CongRefl(y, p);
    CongMul(y, y, Pow(y, p), y, p);
    CongTrans(r * r, Pow(y, p + 1), y * y, p);
    CongSym(v, y * y, p);
    CongTrans(r * r, y * y, v, p);
  }

  // x = a square root of x modulo prime, when there is one
  method Sqrt(x: array<u32>, prime: array<u32>)
    requires IsBignum(x) && Value(x[..]) < TWO259 && x != prime
    requires IsBignum(prime) && NearTwo256(Value(prime[..])) && Value(prime[..]) % 4 == 3
    modifies x
    ensures IsBignum(x) && 0 <= Value(x[..]) < Value(prime[..])
    ensures Cong(Value(x[..]), Pow(old(Value(x[..])), (Value(prime[..]) + 1) / 4), Value(prime[..]))
    ensures IsPrime(Value(prime[..])) ==>
              (IsSquare(old(Value(x[..])), Value(prime[..]))
               <==> Cong(Value(x[..]) * Value(x[..]), old(Value(x[..])), Value(prime[..])))
  {
    hide Cong, Pow, Value;
    ghost var v, p, y := Value(x[..]), Value(prime[..]), prime[..];
    ValueBound(x[..]);
    var e := new u32[LIMBS](_ => 0);
    Copy(prime, e);
    AddI(e, 1);
    RShift(e);
    RShift(e);
    PowerMod(x, e, prime, x);
    ghost var w := Value(x[..]);
    ValueBound(x[..]);
    Mod(x, prime);
    ghost var r := Value(x[..]);
    ReducedCong(r, w, p);
    CongTrans(r, w, Pow(v, (p + 1) / 4), p);
    if IsPrime(p) && IsSquare(v, p) {
      RootOfSquare(v, r, p);
    }
    if Cong(r * r, v, p) {
      CongSym(r * r, v, p);
    }
  }

  lemma ReducedCong(r: int, w: int, p: int)
    requires p > 0 && r == w % p
    ensures 0 <= r < p && Cong(r, w, p)
  {
    assert w == w / p * p + r;
    DividesIntro(p, r - w, -(w / p));
  }
}
