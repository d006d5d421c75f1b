/** The Legendre symbol of bn_legendre: which residues are squares. */
module BignumLegendre {
  import opened Arith
  import opened Limbs
  import opened Words
  import opened Bignum
  import opened BignumReduce
  import opened BignumPower
  import opened Fermat
  import opened PolynomialRoots

  lemma {:induction false} PowerDivides(p: int, v: int, e: nat)
    requires IsPrime(p) && e > 0
    ensures Divides(p, Pow(v, e)) <==> Divides(p, v)
  {
    if Divides(p, v) {
      DividesProduct(p, v, Pow(v, e - 1));
    } else if Divides(p, Pow(v, e)) {
      EuclidAny(p, v, Pow(v, e - 1));
      if e > 1 {
        PowerDivides(p, v, e - 1);
      } else {
        DividesLess(p, 1);
      }
    }
  }

  /** Fermat's little theorem for numbers that the prime does not divide. */
  lemma FermatUnit(y: nat, p: nat)
    requires IsPrime(p) && !Divides(p, y)
    ensures Cong(Pow(y, p - 1), 1, p)
  {
    FermatLittle(y, p);
    var t := Pow(y, p - 1) - 1;
    assert Pow(y, p) - y == y * t;
    EuclidAny(p, y, t);
  }

  /** Euler's criterion: a square that the prime does not divide has (p - 1) / 2 -th power 1. */
  lemma EulerSquare(v: int, p: nat)
    requires IsPrime(p) && p % 2 == 1 && IsSquare(v, p) && !Divides(p, v)
    ensures Cong(Pow(v, (p - 1) / 2), 1, p)
  {
    var k := (p - 1) / 2;
    var y: nat :| Cong(v, y * y, p);
    if Divides(p, y) {
      DividesProduct(p, y, y);
      DividesSum(p, v - y * y, y * y);
    }
    CongPow(v, y * y, k, p);
    PowTimes(y, y, k);
    PowAdd(y, k, k);
    FermatUnit(y, p);
    CongTrans(Pow(v, k), Pow(y, p - 1), 1, p);
  }

  /** The squares of 1 to k, and one number more. */
  function SquaresAnd(k: nat, v: int): (s: seq<int>)
    ensures |s| == k + 1 && s[k] == v && forall i :: 0 <= i < k ==> s[i] == (i + 1) * (i + 1)
  {
    seq(k, i => (i + 1) * (i + 1)) + [v]
  }

  /** The squares of 1 to (p - 1) / 2 are incongruent, because p divides neither sum nor difference of their roots. */
  lemma SquaresDiffer(p: nat, i: nat, j: nat)
    requires IsPrime(p) && 0 < i < j && 2 * j < p
    ensures !Divides(p, i * i - j * j)
  {
    if Divides(p, i * i - j * j) {
      CongSym(i * i, j * j, p);
      assert j * j - i * i == (j - i) * (j + i);
      EuclidAny(p, j - i, j + i);
      if Divides(p, j - i) { DividesLess(p, j - i); } else { DividesLess(p, j + i); }
    }
  }

  /** A number that is no square is incongruent to all squares. */
  lemma NoSquareDiffers(v: int, p: nat, i: nat)
    requires !IsSquare(v, p)
    ensures !Divides(p, i * i - v)
  {
    if Divides(p, i * i - v) {
      CongSym(i * i, v, p);
    }
  }

  lemma SquareIsRoot(p: nat, i: nat, k: nat)
    requires IsPrime(p) && p == 2 * k + 1 && 0 < i <= k
    ensures Divides(p, Pow(i * i, k) - 1)
  {
    if Divides(p, i * i) {
      EuclidAny(p, i, i);
      DividesLess(p, i);
    }
    CongRefl(i * i, p);
    EulerSquare(i * i, p);
  }

  lemma NotZero(v: int, p: nat, k: nat)
    requires IsPrime(p) && k > 0 && Cong(Pow(v, k), 1, p)
    ensures !Divides(p, v) && !Divides(p, 1)
  {
    if Divides(p, 1) {
      DividesLess(p, 1);
    }
    if Divides(p, v) {
      PowerDivides(p, v, k);
      DividesSum(p, Pow(v, k), Pow(v, k) - 1);
    }
  }

  /** Only squares have that power 1: x^k - 1 has k roots already among the squares, and no room for another one. */
  lemma EulerConverse(v: int, p: nat)
    requires IsPrime(p) && p % 2 == 1 && Cong(Pow(v, (p - 1) / 2), 1, p)
    ensures IsSquare(v, p) && !Divides(p, v)
  {
    var k := (p - 1) / 2;
    NotZero(v, p, k);
    var c := PowerMinusOne(k);
    hide Pow, IsPrime, IsSquare, PowerMinusOne, Eval, Divides;
    if !IsSquare(v, p) {
      TooManyRoots(v, p, k);
      hide Roots;
      FewRoots(p, c, SquaresAnd(k, v));
    }
  }

  lemma TooManyRoots(v: int, p: nat, k: nat)
    requires IsPrime(p) && p == 2 * k + 1 && !IsSquare(v, p) && Cong(Pow(v, k), 1, p) && k > 0
    ensures Roots(p, PowerMinusOne(k), SquaresAnd(k, v))
  {
    hide Pow, IsPrime, IsSquare, PowerMinusOne, Eval, Divides;
    var s := SquaresAnd(k, v);
    forall i | 0 <= i < |s|
      ensures Divides(p, Eval(PowerMinusOne(k), s[i]))
    {
      PowerMinusOneIs(k, s[i]);
      if i < k {
        SquareIsRoot(p, i + 1, k);
      }
    }
    forall i, j | 0 <= i < j < |s|
      ensures !Divides(p, s[i] - s[j])
    {
      if j < k {
        SquaresDiffer(p, i + 1, j + 1);
      } else {
        NoSquareDiffers(v, p, i + 1);
      }
    }
  }

  /** No prime near 2^256 is even. */
  lemma OddPrime(p: int)
    requires IsPrime(p) && p > 2
    ensures p % 2 == 1
  {
    if p % 2 == 0 {
      DividesIntro(2, p, p / 2);
    }
  }

  // 0, 1 or -1: whether x is zero, a square or something else modulo prime
  method Legendre(x: array<u32>, prime: array<u32>) returns (symbol: int)
    requires IsBignum(x) && Value(x[..]) < TWO259
    requires IsBignum(prime) && NearTwo256(Value(prime[..]))
    ensures symbol == 0 || symbol == 1 || symbol == -1
    ensures var v, p := Value(x[..]), Value(prime[..]);
            IsPrime(p) ==>
              && (symbol == 0 <==> Divides(p, v))
              && (symbol == 1 <==> IsSquare(v, p) && !Divides(p, v))
  {
    hide Cong, Pow, Value, IsSquare, IsPrime, Divides;
    ghost var v, p := Value(x[..]), Value(prime[..]);
    ValueBound(x[..]);
    var e := new u32[LIMBS](_ => 0);
    Copy(prime, e);
    RShift(e);
    var res := new u32[LIMBS](_ => 0);
    PowerMod(x, e, prime, res);
    ghost var w := Value(res[..]);
    ValueBound(res[..]);
    Mod(res, prime);
    ReducedCong(Value(res[..]), w, p);
    if IsPrime(p) {
      OddPrime(p);
      SymbolIs(v, p, Value(res[..]), w);
    }
    var one := IsOne(res);
    if one {
      return 1;
    }
    var zero := IsZero(res);
    return if zero then 0 else -1;
  }

  lemma SymbolIs(v: nat, p: nat, r: int, w: int)
    requires IsPrime(p) && p % 2 == 1 && Cong(w, Pow(v, p / 2), p) && 0 <= r < p && Cong(r, w, p)
    ensures r == 0 <==> Divides(p, v)
    ensures r == 1 <==> IsSquare(v, p) && !Divides(p, v)
  {
    hide Pow, IsPrime;
    var e := Pow(v, (p - 1) / 2);
    CongTrans(r, w, e, p);
    CongSym(r, e, p);
    ZeroSymbol(v, p, r, e);
    hide Cong, IsSquare;
    if IsSquare(v, p) && !Divides(p, v) {
      EulerSquare(v, p);
      CongTrans(r, e, 1, p);
      CongSmall(r, 1, p);
    }
    if r == 1 {
      EulerConverse(v, p);
    }
  }

  lemma ZeroSymbol(v: nat, p: nat, r: int, e: int)
    requires IsPrime(p) && p % 2 == 1 && e == Pow(v, (p - 1) / 2) && 0 <= r < p && Cong(r, e, p) && Cong(e, r, p)
    ensures r == 0 <==> Divides(p, v)
  {
    hide Pow;
    PowerDivides(p, v, (p - 1) / 2);
    if r == 0 {
      assert Divides(p, e - 0);
    }
    if Divides(p, v) {
      DividesSum(p, r - e, e);
      DividesLess(p, r);
    }
  }
}
