/** Polynomials modulo a prime: as many incongruent roots as the degree at most. */
module PolynomialRoots {
  import opened Arith
  import opened Fermat

  /** The value at x of the polynomial with coefficients c, constant term first. */
  function Eval(c: seq<int>, x: int): int {
    if c == [] then 0 else c[0] + x * Eval(c[1..], x)
  }

  /** The quotient by x - r. */
  function Quot(c: seq<int>, r: int): (q: seq<int>)
    ensures |q| == if c == [] then 0 else |c| - 1
  {
    if |c| <= 1 then [] else [Eval(c[1..], r)] + Quot(c[1..], r)
  }

  lemma Constant(c: seq<int>, x: int)
    ensures |c| == 1 ==> Eval(c, x) == c[0]
  {
    if |c| == 1 {
      assert c[1..] == [];
      assert Eval(c, x) == c[0] + x * 0;
    }
  }

  lemma {:induction false} Factor(c: seq<int>, x: int, r: int)
    ensures Eval(c, x) - Eval(c, r) == (x - r) * Eval(Quot(c, r), x)
  {
    Constant(c, x);
    Constant(c, r);
    if |c| > 1 {
      var d := c[1..];
      Factor(d, x, r);
      assert Quot(c, r)[1..] == Quot(d, r);
      Product(x, r, Eval(d, x), Eval(d, r), Eval(Quot(d, r), x));
    }
  }

  lemma Product(x: int, r: int, e: int, f: int, q: int)
    requires e - f == (x - r) * q
    ensures x * e - r * f == (x - r) * (f + x * q)
  {
    assert (x - r) * (f + x * q) == (x - r) * f + x * ((x - r) * q);
  }

  /** Dividing by x - r keeps the leading coefficient. */
  lemma {:induction false} Leading(c: seq<int>, r: int)
    requires |c| >= 2
    ensures Quot(c, r)[|c| - 2] == c[|c| - 1]
  {
    if |c| == 2 {
      Constant(c[1..], r);
    } else {
      Leading(c[1..], r);
    }
  }

  /** Incongruent numbers at which the polynomial is 0 modulo p. */
  ghost predicate Roots(p: int, c: seq<int>, roots: seq<int>) {
    && (forall i :: 0 <= i < |roots| ==> Divides(p, Eval(c, roots[i])))
    && (forall i, j :: 0 <= i < j < |roots| ==> !Divides(p, roots[i] - roots[j]))
  }

  /** A polynomial whose leading coefficient p does not divide has at most as many roots as its degree. */
  lemma {:induction false} FewRoots(p: int, c: seq<int>, roots: seq<int>)
    requires IsPrime(p) && c != [] && !Divides(p, c[|c| - 1]) && Roots(p, c, roots)
    ensures |roots| <= |c| - 1
    decreases |c|
  {
    if roots != [] {
      var n := |roots| - 1;
      var r := roots[n];
      Constant(c, r);
      if |c| > 1 {
        Leading(c, r);
        forall i | 0 <= i < n
          ensures Divides(p, Eval(Quot(c, r), roots[i]))
        {
          Factor(c, roots[i], r);
          DividesSum(p, Eval(c, roots[i]), Eval(c, r));
          EuclidAny(p, roots[i] - r, Eval(Quot(c, r), roots[i]));
        }
        FewRoots(p, Quot(c, r), roots[..n]);
      }
    }
  }

  /** x^n - 1, for n at least 1. */
  function PowerMinusOne(n: nat): (c: seq<int>)
    requires n > 0
    ensures |c| == n + 1 && c[n] == 1
  {
    [-1] + Monomial(n - 1)
  }

  function Monomial(n: nat): (c: seq<int>)
    ensures |c| == n + 1 && c[n] == 1
  {
    if n == 0 then [1] else [0] + Monomial(n - 1)
  }

  lemma {:induction false} MonomialIs(n: nat, x: int)
    ensures Eval(Monomial(n), x) == Pow(x, n)
  {
    if n == 0 {
      Constant([1], x);
    } else {
      MonomialIs(n - 1, x);
      assert Monomial(n)[1..] == Monomial(n - 1);
    }
  }

  lemma PowerMinusOneIs(n: nat, x: int)
    requires n > 0
    ensures Eval(PowerMinusOne(n), x) == Pow(x, n) - 1
  {
    MonomialIs(n - 1, x);
    hide Monomial;
    assert PowerMinusOne(n)[1..] == Monomial(n - 1);
  }
}
