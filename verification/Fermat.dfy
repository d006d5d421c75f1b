/** Fermat's little theorem, from the binomial theorem, for the square root modulo a prime. */
module Fermat {
  import opened Arith

  ghost predicate IsPrime(p: int) {
    p >= 2 && forall d :: 0 < d && Divides(d, p) ==> d == 1 || d == p
  }

  /** A prime that divides a product of a smaller positive number divides the other factor. */
  lemma {:induction false} Euclid(p: int, a: int, b: int)
    requires IsPrime(p) && 0 < a < p && Divides(p, a * b)
    ensures Divides(p, b)
    decreases a
  {
    if a > 1 {
      var q, r := p / a, p % a;
      assert p == q * a + r;
      if r == 0 {
        DividesIntro(a, p, q);
      } else {
        DividesProduct(p, a * b, q);
        DividesIntro(p, p * b, b);
        DividesSum(p, p * b, q * (a * b));
        EuclidStep(p, q, a, r, b);
        Euclid(p, r, b);
      }
    }
  }

  lemma EuclidStep(p: int, q: int, a: int, r: int, b: int)
    requires p == q * a + r
    ensures r * b == p * b - q * (a * b)
  {
    Assoc(q, a, b);
  }

  /** A prime that divides a product divides a factor. */
  lemma EuclidAny(p: int, a: int, b: int)
    requires IsPrime(p) && Divides(p, a * b)
    ensures Divides(p, a) || Divides(p, b)
  {
    var c := a % p;
    DivMod(a, p);
    DividesMod(p, a);
    if c != 0 {
      DividesIntro(p, a / p * p, a / p);
      DividesProduct(p, a / p * p, b);
      DividesSum(p, a * b, a / p * p * b);
      assert a * b - a / p * p * b == c * b;
      Euclid(p, c, b);
    }
  }

  function Binomial(n: nat, k: nat): nat {
    if k == 0 then 1
    else if n == 0 then 0
    else Binomial(n - 1, k) + Binomial(n - 1, k - 1)
  }

  lemma {:induction false} BinomialEdge(n: nat, k: nat)
    requires k >= n
    ensures Binomial(n, k) == if k == n then 1 else 0
  {
    if n > 0 {
      BinomialEdge(n - 1, k);
      BinomialEdge(n - 1, k - 1);
    }
  }

  lemma {:induction false} BinomialAbsorb(n: nat, k: nat)
    requires n > 0 && k > 0
    ensures k * Binomial(n, k) == n * Binomial(n - 1, k - 1)
  {
    if n == 1 {
      BinomialEdge(1, k);
      BinomialEdge(0, k - 1);
    } else if k == 1 {
      BinomialAbsorb(n - 1, 1);
    } else {
      BinomialAbsorb(n - 1, k);
      BinomialAbsorb(n - 1, k - 1);
      AbsorbStep(n, k, Binomial(n - 1, k), Binomial(n - 1, k - 1), Binomial(n - 2, k - 1), Binomial(n - 2, k - 2));
    }
  }

  lemma AbsorbStep(n: int, k: int, d: int, c: int, b2: int, b1: int)
    requires k * d == (n - 1) * b2 && (k - 1) * c == (n - 1) * b1 && c == b2 + b1
    ensures k * (d + c) == n * c
  {
    assert (n - 1) * c == (n - 1) * b2 + (n - 1) * b1;
    assert k * (d + c) == k * d + (k - 1) * c + c;
  }

  lemma PrimeDividesBinomial(p: nat, k: nat)
    requires IsPrime(p) && 0 < k < p
    ensures Divides(p, Binomial(p, k))
  {
    BinomialAbsorb(p, k);
    DividesIntro(p, k * Binomial(p, k), Binomial(p - 1, k - 1));
    Euclid(p, k, Binomial(p, k));
  }

  /** The first m terms of the binomial expansion of (a + 1)^n. */
  function Expansion(a: int, n: nat, m: nat): int {
    if m == 0 then 0 else Expansion(a, n, m - 1) + Binomial(n, m - 1) * Pow(a, m - 1)
  }

  lemma {:induction false} ExpansionStep(a: int, n: nat, m: nat)
    ensures Expansion(a, n + 1, m + 1) == Expansion(a, n, m + 1) + a * Expansion(a, n, m)
  {
    if m > 0 {
      ExpansionStep(a, n, m - 1);
      var t := Pow(a, m - 1);
      assert Pow(a, m) == a * t;
      assert Binomial(n + 1, m) == Binomial(n, m) + Binomial(n, m - 1);
      hide Binomial, Pow;
      SplitTerm(a, Binomial(n, m), Binomial(n, m - 1), t, Expansion(a, n, m - 1));
    }
  }

  lemma SplitTerm(a: int, b: int, c: int, t: int, e: int)
    ensures (b + c) * (a * t) + a * e == b * (a * t) + a * (e + c * t)
  {
    Assoc(c, a, t);
    Assoc(a, c, t);
  }

  lemma OneMoreFactor(a: int, e: int)
    ensures (a + 1) * e == e + a * e
  {
  }

  lemma {:induction false} BinomialTheorem(a: int, n: nat)
    ensures Pow(a + 1, n) == Expansion(a, n, n + 1)
  {
    if n > 0 {
      BinomialTheorem(a, n - 1);
      ExpansionStep(a, n - 1, n);
      BinomialEdge(n - 1, n);
      var e := Expansion(a, n - 1, n);
      assert Expansion(a, n - 1, n + 1) == e;
      assert Pow(a + 1, n) == (a + 1) * e;
      hide Expansion, Binomial, Pow;
      OneMoreFactor(a, e);
    }
  }

  lemma {:induction false} ExpansionMod(a: int, p: nat, m: nat)
    requires IsPrime(p) && 0 < m <= p
    ensures Cong(Expansion(a, p, m), 1, p)
  {
    if m == 1 {
      assert Expansion(a, p, 1) == 1;
      CongRefl(1, p);
    } else {
      ExpansionMod(a, p, m - 1);
      PrimeDividesBinomial(p, m - 1);
      DividesProduct(p, Binomial(p, m - 1), Pow(a, m - 1));
      DividesSum(p, Expansion(a, p, m - 1) - 1, Binomial(p, m - 1) * Pow(a, m - 1));
    }
  }

  /** Fermat's little theorem: a^p is a modulo a prime p. */
  lemma {:induction false} FermatLittle(a: nat, p: nat)
    requires IsPrime(p)
    ensures Cong(Pow(a, p), a, p)
  {
    if a == 0 {
      assert Pow(0, p) == 0 * Pow(0, p - 1) == 0;
      CongRefl(0, p);
    } else {
      FermatLittle(a - 1, p);
      BinomialTheorem(a - 1, p);
      BinomialEdge(p, p);
      assert Pow(a, p) == Expansion(a - 1, p, p) + Pow(a - 1, p);
      ExpansionMod(a - 1, p, p);
      CongAdd(Expansion(a - 1, p, p), 1, Pow(a - 1, p), a - 1, p);
    }
  }
}
