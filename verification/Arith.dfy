/** Integer facts the other modules share: powers, divisibility and congruence. */
module Arith {

  function Pow(b: int, e: nat): int {
    if e == 0 then 1 else b * Pow(b, e - 1)
  }

  lemma {:induction false} PowAdd(b: int, m: nat, n: nat)
    ensures Pow(b, m + n) == Pow(b, m) * Pow(b, n)
  {
    if m > 0 {
      PowAdd(b, m - 1, n);
      Assoc(b, Pow(b, m - 1), Pow(b, n));
    }
  }

  lemma Assoc(a: int, b: int, c: int)
    ensures a * (b * c) == (a * b) * c
  {
  }

  lemma Regroup(a: int, b: int, c: int)
    ensures a * (b * c) == (a * c) * b
  {
  }

  lemma Distribute(a: int, x: int, y: int)
    ensures a * (x + y) == a * x + a * y
  {
  }

  lemma {:induction false} PowTimes(a: int, b: int, e: nat)
    ensures Pow(a * b, e) == Pow(a, e) * Pow(b, e)
  {
    if e > 0 {
      PowTimes(a, b, e - 1);
      Interchange(a, b, Pow(a, e - 1), Pow(b, e - 1));
    }
  }

  lemma Interchange(a: int, b: int, p: int, q: int)
    ensures (a * b) * (p * q) == (a * p) * (b * q)
  {
    var bq := b * q;
    calc {
      (a * b) * (p * q);
      { Assoc(a, b, p * q); }
      a * (b * (p * q));
      { Assoc(b, p, q); Assoc(p, b, q); }
      a * (p * bq);
      { Assoc(a, p, bq); }
      (a * p) * bq;
    }
  }

  lemma {:induction false} PowPow(b: int, m: nat, n: nat)
    ensures Pow(Pow(b, m), n) == Pow(b, m * n)
  {
    if n > 0 {
      PowPow(b, m, n - 1);
      assert m * n == m + m * (n - 1);
      PowAdd(b, m, m * (n - 1));
    }
  }

  lemma {:induction false} PowPositive(b: int, e: nat)
    requires b > 0
    ensures Pow(b, e) > 0
  {
    if e > 0 {
      PowPositive(b, e - 1);
    }
  }

  /** A larger base gives a larger power. */
  lemma {:induction false} PowBaseStrict(a: int, b: int, e: nat)
    requires 0 <= a < b && e > 0
    ensures 0 <= Pow(a, e) < Pow(b, e)
  {
    if e > 1 {
      PowBaseStrict(a, b, e - 1);
      MulStrict(a, b, Pow(a, e - 1), Pow(b, e - 1));
    }
  }

  lemma MulStrict(a: int, b: int, x: int, y: int)
    requires 0 <= a < b && 0 <= x < y
    ensures 0 <= a * x < b * y
  {
    assert a * x <= a * y;
    assert a * y < b * y by { assert (b - a) * y > 0; }
  }

  lemma MulMono(a: int, b: int, c: int)
    requires a <= b && 0 <= c
    ensures a * c <= b * c
  {
  }

  lemma MulMono2(a: int, b: int, x: int, y: int)
    requires 0 <= a <= b && 0 <= x <= y
    ensures 0 <= a * x <= b * y
  {
    MulMono(x, y, a);
    MulMono(a, b, y);
  }

  lemma {:induction false} PowMono(b: int, m: nat, n: nat)
    requires b >= 1 && m <= n
    ensures 1 <= Pow(b, m) <= Pow(b, n)
  {
    PowPositive(b, m);
    PowPositive(b, n - m);
    PowAdd(b, n - m, m);
    MulMono(1, Pow(b, n - m), Pow(b, m));
  }

  /** Taking n-th roots keeps the order of naturals. */
  lemma RootMono(a: nat, b: nat, n: nat)
    requires n > 0 && Pow(a, n) <= Pow(b, n)
    ensures a <= b
  {
    if b < a {
      PowBaseStrict(b, a, n);
    }
  }

  // ---------------------------------------------------------------- division

  /** Quotient and remainder are determined by the division equation. */
  lemma DivModUnique(x: int, d: int, q: int, r: int)
    requires 0 < d && 0 <= r < d && x == q * d + r
    ensures x / d == q && x % d == r
  {
    var q', r' := x / d, x % d;
    assert x == d * q' + r';
    assert (q - q') * d == r' - r;
    if q > q' {
      MulMono(1, q - q', d);
    } else if q < q' {
      MulMono(1, q' - q, d);
    }
  }

  lemma DivMod(x: int, d: int)
    requires d > 0
    ensures x == x / d * d + x % d && 0 <= x % d < d
    ensures x >= 0 ==> 0 <= x / d <= x
  {
    if x >= 0 {
      if x / d < 0 { MulMono(x / d, -1, d); }
      MulMono(1, d, if x / d < 0 then 0 else x / d);
    }
  }

  /** Dividing by p and then by q is dividing by p q. */
  lemma DivDiv(x: int, p: int, q: int)
    requires p > 0 && q > 0
    ensures p * q > 0 && (x / p) / q == x / (p * q)
  {
    var a, r := x / p, x % p;
    var c, t := a / q, a % q;
    DivMod(x, p);
    DivMod(a, q);
    assert p * q > 0;
    Expand(c, q, t, p);
    MulMono(t, q - 1, p);
    assert (q - 1) * p == p * q - p;
    MulMono(0, t, p);
    DivModUnique(x, p * q, c, t * p + r);
  }

  lemma Expand(q: int, d: int, m: int, c: int)
    ensures (q * d + m) * c == q * (c * d) + m * c
  {
    Regroup(q, c, d);
    Assoc(q, d, c);
  }

  ghost predicate Times(q: int, m: int, x: int) { x == q * m }

  ghost predicate Divides(m: int, x: int) { exists q :: Times(q, m, x) }

  /** a and b leave the same remainder modulo m. */
  ghost predicate Cong(a: int, b: int, m: int) { Divides(m, a - b) }

  lemma DividesIntro(m: int, x: int, q: int)
    requires x == q * m
    ensures Divides(m, x)
  {
    assert Times(q, m, x);
  }

  lemma DividesSum(m: int, x: int, y: int)
    requires Divides(m, x) && Divides(m, y)
    ensures Divides(m, x + y) && Divides(m, x - y)
  {
    var p :| Times(p, m, x);
    var q :| Times(q, m, y);
    DividesIntro(m, x + y, p + q);
    DividesIntro(m, x - y, p - q);
  }

  lemma DividesProduct(m: int, x: int, k: int)
    requires Divides(m, x)
    ensures Divides(m, k * x) && Divides(m, x * k)
  {
    var q :| Times(q, m, x);
    Assoc(k, q, m);
    DividesIntro(m, k * x, k * q);
  }

  lemma DividesTrans(a: int, b: int, c: int)
    requires Divides(a, b) && Divides(b, c)
    ensures Divides(a, c)
  {
    var q :| Times(q, b, c);
    DividesProduct(a, b, q);
  }

  lemma DividesLess(m: int, x: int)
    requires m > 0 && 0 <= x < m && Divides(m, x)
    ensures x == 0
  {
    var q :| Times(q, m, x);
    if q >= 1 { MulMono(1, q, m); }
    if q <= -1 { MulMono(q, -1, m); }
  }

  lemma DividesMod(m: int, x: int)
    requires m > 0
    ensures Divides(m, x) <==> x % m == 0
  {
    if Divides(m, x) {
      var q :| Times(q, m, x);
      DivModUnique(x, m, q, 0);
    }
    if x % m == 0 {
      DividesIntro(m, x, x / m);
    }
  }

  lemma CongRefl(a: int, m: int)
    ensures Cong(a, a, m)
  {
    DividesIntro(m, 0, 0);
  }

  lemma CongSym(a: int, b: int, m: int)
    requires Cong(a, b, m)
    ensures Cong(b, a, m)
  {
    DividesProduct(m, a - b, -1);
    assert -1 * (a - b) == b - a;
  }

  lemma CongTrans(a: int, b: int, c: int, m: int)
    requires Cong(a, b, m) && Cong(b, c, m)
    ensures Cong(a, c, m)
  {
    DividesSum(m, a - b, b - c);
    assert (a - b) + (b - c) == a - c;
  }

  lemma CongMul(a: int, b: int, c: int, d: int, m: int)
    requires Cong(a, b, m) && Cong(c, d, m)
    ensures Cong(a * c, b * d, m)
  {
    DividesProduct(m, a - b, c);
    DividesProduct(m, c - d, b);
    DividesSum(m, c * (a - b), b * (c - d));
    assert c * (a - b) + b * (c - d) == a * c - b * d;
  }

  lemma CongAdd(a: int, b: int, c: int, d: int, m: int)
    requires Cong(a, b, m) && Cong(c, d, m)
    ensures Cong(a + c, b + d, m) && Cong(a - c, b - d, m)
  {
    DividesSum(m, a - b, c - d);
    assert (a - b) + (c - d) == (a + c) - (b + d);
    assert (a - b) - (c - d) == (a - c) - (b - d);
  }

  /** Dropping a multiple of the modulus. */
  lemma CongDrop(a: int, k: int, m: int)
    ensures Cong(a - k * m, a, m) && Cong(a + k * m, a, m)
  {
    DividesIntro(m, (a - k * m) - a, -k);
    DividesIntro(m, (a + k * m) - a, k);
  }

  lemma {:induction false} CongPow(a: int, b: int, e: nat, m: int)
    requires Cong(a, b, m)
    ensures Cong(Pow(a, e), Pow(b, e), m)
  {
    if e == 0 {
      CongRefl(1, m);
    } else {
      CongPow(a, b, e - 1, m);
      CongMul(a, b, Pow(a, e - 1), Pow(b, e - 1), m);
    }
  }

  lemma CongMod(a: int, b: int, m: int)
    requires m > 0
    ensures Cong(a, b, m) <==> a % m == b % m
  {
    var p, q := a / m, b / m;
    assert a == m * p + a % m && b == m * q + b % m;
    if a % m == b % m {
      assert a - b == (p - q) * m;
      DividesIntro(m, a - b, p - q);
    }
    if Cong(a, b, m) {
      var k :| Times(k, m, a - b);
      assert a == (k + q) * m + b % m;
      DivModUnique(a, m, k + q, b % m);
    }
  }

  /** Two residues in range that are congruent are equal. */
  lemma CongSmall(a: int, b: int, m: int)
    requires m > 0 && 0 <= a < m && 0 <= b < m && Cong(a, b, m)
    ensures a == b
  {
    if a >= b { DividesLess(m, a - b); } else {
      CongSym(a, b, m);
      DividesLess(m, b - a);
    }
  }

  /** An odd modulus allows cancelling a factor 2. */
  lemma CancelTwo(x: int, m: int)
    requires m % 2 == 1 && Divides(m, 2 * x)
    ensures Divides(m, x)
  {
    var q :| Times(q, m, 2 * x);
    var h := m / 2;
    assert m == 2 * h + 1;
    assert 2 * x == q * (2 * h + 1) == 2 * (q * h) + q;
    var q2 := x - q * h;
    assert q == 2 * q2;
    assert 2 * x == 2 * (q2 * m) by { assert (2 * q2) * m == 2 * (q2 * m); }
    DividesIntro(m, x, q2);
  }

  lemma {:induction false} CancelPowTwo(x: int, k: nat, m: int)
    requires m % 2 == 1 && Divides(m, Pow(2, k) * x)
    ensures Divides(m, x)
  {
    if k > 0 {
      var y := Pow(2, k - 1) * x;
      assert Pow(2, k) * x == 2 * y;
      CancelTwo(y, m);
      CancelPowTwo(x, k - 1, m);
    }
  }
}
