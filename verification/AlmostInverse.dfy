/** The almost Montgomery inverse of bn_inverse_fast as a recursion on numbers, and why it works. */
module AlmostInverse {
  import opened Arith
  import Bits
  import Limbs

  ghost predicate Coprime(a: int, b: int) {
    forall d :: d > 0 && Divides(d, a) && Divides(d, b) ==> d == 1
  }

  datatype State = State(u: int, v: int, r: int, s: int, k: nat)

  /** One round of the loop that stops at v == 1. */
  function Step(t: State): State {
    if t.u % 2 == 0 then State(t.u / 2, t.v, t.r, 2 * t.s, t.k + 1)
    else if t.v % 2 == 0 then State(t.u, t.v / 2, 2 * t.r, t.s, t.k + 1)
    else if t.v < t.u then State((t.u - t.v) / 2, t.v, t.r + t.s, 2 * t.s, t.k + 1)
    else State(t.u, (t.v - t.u) / 2, 2 * t.r, t.r + t.s, t.k + 1)
  }

  /** 2 * BN_LIMBS * BN_BITS_PER_LIMB */
  const ROUNDS := 522

  /** n rounds, of which those after v == 1 change nothing. */
  function Run(x: int, p: int, n: nat): State {
    if n == 0 then State(p, x, 0, 1, 0)
    else
      var t := Run(x, p, n - 1);
      if t.v == 1 then t else Step(t)
  }

  lemma RunStart(x: int, p: int)
    ensures Run(x, p, 0) == State(p, x, 0, 1, 0)
  {
  }

  lemma RunNext(x: int, p: int, n: nat)
    ensures Run(x, p, n + 1) == if Run(x, p, n).v == 1 then Run(x, p, n) else Step(Run(x, p, n))
  {
  }

  /** u s + v r stays p, and s stays below p because r or a first s of 1 stands beside it. */
  ghost predicate Balanced(t: State, x: int, p: int) {
    && 1 <= t.u && 1 <= t.v && 0 <= t.r && 1 <= t.s
    && t.u * t.s + t.v * t.r == p
    && (t.r >= 1 || (t.s == 1 && t.u == p && t.v <= x))
  }

  /** s and r are x^-1 v and x^-1 (-u), up to the factor 2^k. */
  ghost predicate Tracked(t: State, x: int, p: int) {
    && Cong(x * t.s, t.v * Pow(2, t.k), p)
    && Cong(x * t.r, (-t.u) * Pow(2, t.k), p)
  }

  /** u v at least halves in every round. */
  ghost predicate Shrunk(t: State, x: int, p: int) {
    Pow(2, t.k) * (t.u * t.v) <= p * x
  }

  /** What every round keeps while x is invertible. */
  ghost predicate Keeps(t: State, x: int, p: int) {
    Balanced(t, x, p) && Coprime(t.u, t.v) && Tracked(t, x, p) && Shrunk(t, x, p)
  }

  lemma StepKeeps(t: State, x: int, p: int)
    requires 0 < x < p && p % 2 == 1 && Keeps(t, x, p) && t.v != 1
    ensures Keeps(Step(t), x, p)
  {
    StepCoprime(t);
    StepBalanced(t, x, p);
    StepTracked(t, x, p);
    StepShrunk(t, x, p);
  }

  lemma StepBalanced(t: State, x: int, p: int)
    requires 0 < x < p && p % 2 == 1 && Balanced(t, x, p) && 1 <= Step(t).u && 1 <= Step(t).v
    ensures Balanced(Step(t), x, p)
  {
    hide Balanced;
    if t.u % 2 == 0 || t.v % 2 == 0 {
      EvenBalanced(t, x, p);
    } else {
      OddBalanced(t, x, p);
    }
  }

  lemma EvenBalanced(t: State, x: int, p: int)
    requires 0 < x < p && p % 2 == 1 && Balanced(t, x, p) && 1 <= Step(t).u && 1 <= Step(t).v
    requires t.u % 2 == 0 || t.v % 2 == 0
    ensures Balanced(Step(t), x, p)
  {
    if t.u % 2 == 0 {
      SumEven(t.u, t.s, t.v, t.r, t.u / 2);
    } else {
      SumEven(t.v, t.r, t.u, t.s, t.v / 2);
    }
  }

  lemma OddBalanced(t: State, x: int, p: int)
    requires 0 < x < p && Balanced(t, x, p) && 1 <= Step(t).u && 1 <= Step(t).v
    requires t.u % 2 != 0 && t.v % 2 != 0
    ensures Balanced(Step(t), x, p)
  {
    hide Balanced;
    if t.v < t.u {
      BalancedLess(t, (t.u - t.v) / 2, x, p);
    } else {
      BalancedMore(t, (t.v - t.u) / 2, x, p);
    }
  }

  lemma BalancedLess(t: State, h: int, x: int, p: int)
    requires Balanced(t, x, p) && t.u % 2 != 0 && t.v % 2 != 0 && h == (t.u - t.v) / 2 && 1 <= h
    ensures Balanced(State(h, t.v, t.r + t.s, 2 * t.s, t.k + 1), x, p)
  {
    SumOdd(t.u, t.s, t.v, t.r, h, t.r + t.s);
  }

  lemma BalancedMore(t: State, h: int, x: int, p: int)
    requires 0 < x < p && Balanced(t, x, p) && t.u % 2 != 0 && t.v % 2 != 0 && h == (t.v - t.u) / 2 && 1 <= h
    ensures Balanced(State(t.u, h, 2 * t.r, t.r + t.s, t.k + 1), x, p)
  {
    SumOdd(t.v, t.r, t.u, t.s, h, t.r + t.s);
  }

  lemma SumEven(u: int, s: int, v: int, r: int, h: int)
    requires u == 2 * h
    ensures h * (2 * s) + v * r == u * s + v * r
  {
  }

  lemma SumOdd(u: int, s: int, v: int, r: int, h: int, sum: int)
    requires u - v == 2 * h && sum == r + s
    ensures h * (2 * s) + v * sum == u * s + v * r
  {
    HalfTwice(u - v, h, s, 2 * s);
    assert v * sum == v * r + v * s;
  }

  lemma HalfTwice(u: int, h: int, s: int, d: int)
    requires u == 2 * h && d == 2 * s
    ensures h * d == u * s
  {
  }

  lemma Twice(h: int, s: int)
    ensures (2 * h) * s == h * (2 * s) == 2 * (h * s)
  {
  }

  /** A common divisor of the new pair divides the old pair too. */
  lemma StepCoprime(t: State)
    requires Coprime(t.u, t.v) && 1 <= t.u && 1 <= t.v && t.v != 1
    ensures Coprime(Step(t).u, Step(t).v) && 1 <= Step(t).u && 1 <= Step(t).v
  {
    var n := Step(t);
    if t.u == t.v {
      DividesIntro(t.v, t.v, 1);
    }
    forall d | d > 0 && Divides(d, n.u) && Divides(d, n.v)
      ensures d == 1
    {
      CommonDivisor(t, d);
    }
  }

  lemma CommonDivisor(t: State, d: int)
    requires Divides(d, Step(t).u) && Divides(d, Step(t).v)
    ensures Divides(d, t.u) && Divides(d, t.v)
  {
    hide Divides;
    HalfOf(t.u - t.v);
    var n := Step(t);
    if t.u % 2 == 0 {
      DividesTwicePlus(d, n.u, 0, t.u);
    } else if t.v % 2 == 0 {
      DividesTwicePlus(d, n.v, 0, t.v);
    } else if t.v < t.u {
      DividesTwicePlus(d, n.u, n.v, t.u);
    } else {
      DividesTwicePlus(d, n.v, n.u, t.v);
    }
  }

  lemma DividesTwicePlus(d: int, h: int, w: int, x: int)
    requires Divides(d, h) && (w == 0 || Divides(d, w)) && x == 2 * h + w
    ensures Divides(d, x)
  {
    DividesProduct(d, h, 2);
    if w != 0 {
      DividesSum(d, 2 * h, w);
    }
  }

  lemma StepTracked(t: State, x: int, p: int)
    requires Tracked(t, x, p)
    ensures Tracked(Step(t), x, p)
  {
    hide Tracked;
    if t.u % 2 == 0 || t.v % 2 == 0 {
      EvenTracked(t, x, p);
    } else {
      OddTracked(t, x, p);
    }
  }

  lemma EvenTracked(t: State, x: int, p: int)
    requires Tracked(t, x, p) && (t.u % 2 == 0 || t.v % 2 == 0)
    ensures Tracked(Step(t), x, p)
  {
    var q := Pow(2, t.k);
    assert Pow(2, t.k + 1) == 2 * q;
    hide Pow, Cong;
    if t.u % 2 == 0 {
      TrackedEven(x, t.s, t.v, t.r, -t.u, -(t.u / 2), q, p);
    } else {
      TrackedEven(x, t.r, -t.u, t.s, t.v, t.v / 2, q, p);
    }
  }

  lemma OddTracked(t: State, x: int, p: int)
    requires Tracked(t, x, p) && t.u % 2 != 0 && t.v % 2 != 0
    ensures Tracked(Step(t), x, p)
  {
    hide Tracked;
    if t.v < t.u {
      TrackedLess(t, (t.u - t.v) / 2, x, p);
    } else {
      TrackedMore(t, (t.v - t.u) / 2, x, p);
    }
  }

  lemma TrackedLess(t: State, h: int, x: int, p: int)
    requires Tracked(t, x, p) && t.u - t.v == 2 * h
    ensures Tracked(State(h, t.v, t.r + t.s, 2 * t.s, t.k + 1), x, p)
  {
    assert Pow(2, t.k + 1) == 2 * Pow(2, t.k);
    hide Pow, Cong;
    TrackedOdd(x, t.s, t.v, t.r, -t.u, -h, Pow(2, t.k), p);
  }

  lemma TrackedMore(t: State, h: int, x: int, p: int)
    requires Tracked(t, x, p) && t.v - t.u == 2 * h
    ensures Tracked(State(t.u, h, 2 * t.r, t.r + t.s, t.k + 1), x, p)
  {
    assert Pow(2, t.k + 1) == 2 * Pow(2, t.k);
    hide Pow, Cong;
    TrackedOdd(x, t.r, -t.u, t.s, t.v, h, Pow(2, t.k), p);
    assert t.r + t.s == t.s + t.r;
  }

  lemma HalfOf(d: int)
    ensures d % 2 == 0 ==> d == 2 * (d / 2) && (-d) / 2 == -(d / 2)
  {
  }

  /** Halving w and doubling s keeps both congruences when the power of two is doubled. */
  lemma TrackedEven(x: int, s: int, v: int, r: int, w: int, h: int, q: int, p: int)
    requires Cong(x * s, v * q, p) && Cong(x * r, w * q, p) && w == 2 * h
    ensures Cong(x * (2 * s), v * (2 * q), p) && Cong(x * r, h * (2 * q), p)
  {
    CongDouble(x, s, 2 * s, v, v, q, 2 * q, p);
    CongHalf(x, r, r, w, h, q, 2 * q, p);
  }

  lemma TrackedOdd(x: int, s: int, v: int, r: int, w: int, h: int, q: int, p: int)
    requires Cong(x * s, v * q, p) && Cong(x * r, w * q, p) && v + w == 2 * h
    ensures Cong(x * (2 * s), v * (2 * q), p) && Cong(x * (r + s), h * (2 * q), p)
  {
    CongDouble(x, s, 2 * s, v, v, q, 2 * q, p);
    CongHalfSum(x, s, r, r + s, v, w, h, q, 2 * q, p);
  }

  lemma CongDouble(x: int, s: int, s': int, v: int, v': int, q: int, q': int, p: int)
    requires Cong(x * s, v * q, p) && s' == 2 * s && v' == v && q' == 2 * q
    ensures Cong(x * s', v' * q', p)
  {
    DividesProduct(p, x * s - v * q, 2);
    assert 2 * (x * s - v * q) == x * s' - v' * q';
  }

  lemma CongHalf(x: int, s: int, s': int, v: int, v': int, q: int, q': int, p: int)
    requires Cong(x * s, v * q, p) && s' == s && v == 2 * v' && q' == 2 * q
    ensures Cong(x * s', v' * q', p)
  {
    HalfTwice(v, v', q, q');
  }

  lemma CongHalfSum(x: int, s: int, r: int, s': int, v: int, w: int, v': int, q: int, q': int, p: int)
    requires Cong(x * s, v * q, p) && Cong(x * r, w * q, p)
    requires s' == r + s && v + w == 2 * v' && q' == 2 * q
    ensures Cong(x * s', v' * q', p)
  {
    CongAdd(x * s, v * q, x * r, w * q, p);
    assert x * s + x * r == x * s';
    assert v * q + w * q == (v + w) * q;
    HalfTwice(v + w, v', q, q');
  }

  lemma StepShrunk(t: State, x: int, p: int)
    requires 1 <= t.u && 1 <= t.v && Shrunk(t, x, p)
    ensures Shrunk(Step(t), x, p)
  {
    var n, q := Step(t), Pow(2, t.k);
    assert Pow(2, t.k + 1) == 2 * q;
    HalvedProduct(t.u, t.v, n.u, n.v);
    PowPositive(2, t.k);
    hide Pow, Step;
    MulMono(2 * (n.u * n.v), t.u * t.v, q);
    Twice(q, n.u * n.v);
  }

  /** Halving one factor, or half the difference for the larger one, at least halves the product. */
  lemma HalvedProduct(u: int, v: int, u': int, v': int)
    requires 1 <= u && 1 <= v
    requires (2 * u' <= u && v' == v) || (2 * v' <= v && u' == u)
    ensures 2 * (u' * v') <= u * v
  {
    if v' == v && 2 * u' <= u {
      Twice(u', v);
      MulMono(2 * u', u, v);
    } else {
      Twice(v', u);
      MulMono(2 * v', v, u);
    }
  }

  lemma {:induction false} RunKeeps(x: int, p: int, n: nat)
    requires 0 < x < p && p % 2 == 1 && Coprime(x, p)
    ensures Keeps(Run(x, p, n), x, p)
    ensures Run(x, p, n).v == 1 || Run(x, p, n).k == n
  {
    if n == 0 {
      CongRefl(x, p);
      DividesIntro(p, 0 + p, 1);
      assert Coprime(p, x);
      assert p * 1 + x * 0 == p;
      assert x * 0 - (-p) * 1 == p;
    } else {
      RunKeeps(x, p, n - 1);
      var t := Run(x, p, n - 1);
      if t.v != 1 {
        StepKeeps(t, x, p);
      }
    }
  }

  /** While no more than p x / 2^k is left, 2 m rounds are enough for numbers up to 2^m. */
  lemma RunEnds(x: int, p: int, m: nat, n: nat)
    requires 0 < x < p <= Pow(2, m) && p % 2 == 1 && Coprime(x, p) && n >= 2 * m
    ensures var t := Run(x, p, n); t.v == 1 && t.k < 2 * m && 1 <= t.s < p && Cong(x * t.s, Pow(2, t.k), p)
  {
    hide Run, Pow, Cong, Coprime;
    RunKeeps(x, p, n);
    var t := Run(x, p, n);
    AtLeastOne(t.u, t.v);
    FewRounds(t.k, t.u * t.v, x, p, m);
    SmallS(t, x, p);
    assert t.v * Pow(2, t.k) == Pow(2, t.k);
  }

  lemma AtLeastOne(u: int, v: int)
    requires 1 <= u && 1 <= v
    ensures 1 <= u * v
  {
  }

  lemma RunEnds256(x: int, p: int)
    requires 0 < x < p <= Limbs.TWO256 && p % 2 == 1 && Coprime(x, p)
    ensures var t := Run(x, p, ROUNDS); t.v == 1 && 1 <= t.s < p && Cong(x * t.s, Pow(2, t.k), p)
  {
    var m: nat :| m == 256;
    TwoTo256(m);
    RunEnds(x, p, m, ROUNDS);
  }

  lemma TwoTo256(m: nat)
    requires m == 256
    ensures Pow(2, m) == Limbs.TWO256
  {
    var b: nat :| b == 32;
    Bits.TwoTo32();
    PowAdd(2, b, b);
    PowAdd(2, 2 * b, 2 * b);
    PowAdd(2, 4 * b, 4 * b);
  }

  lemma FewRounds(k: nat, w: int, x: int, p: int, m: nat)
    requires 0 < x < p <= Pow(2, m) && 1 <= w && Pow(2, k) * w <= p * x
    ensures k < 2 * m
  {
    var top, q := Pow(2, m), Pow(2, k);
    PowPositive(2, k);
    MulMono(1, w, q);
    MulMono(x, p - 1, p);
    assert (p - 1) * p == p * p - p;
    MulMono2(p, top, p, top);
    assert q * w >= q && p * x < top * top;
    PowAdd(2, m, m);
    if k >= m + m {
      PowMono(2, m + m, k);
    }
  }

  lemma SmallS(t: State, x: int, p: int)
    requires 0 < x < p && Balanced(t, x, p) && p > 1
    ensures 1 <= t.s < p && 0 <= t.r <= p
  {
    MulMono(1, t.u, t.s);
    MulMono(1, t.v, t.r);
  }

  lemma {:induction false} RunZero(p: int, n: nat)
    requires p % 2 == 1
    ensures Run(0, p, n) == State(p, 0, 0, 1, n)
  {
    if n > 0 {
      RunZero(p, n - 1);
    }
  }

  /** No number of a run leaves the range of the limbs. */
  lemma RunBounds(x: int, p: int, n: nat)
    requires 0 <= x < p && p % 2 == 1 && (x == 0 || Coprime(x, p))
    ensures var t := Run(x, p, n);
            0 <= t.u <= p && 0 <= t.v <= p && 0 <= t.r <= p && 0 <= t.s <= p && t.k <= n
  {
    if x == 0 {
      RunZero(p, n);
    } else {
      RunKeeps(x, p, n);
      RunCount(x, p, n);
      var t := Run(x, p, n);
      SmallS(t, x, p);
      MulMono(1, t.s, t.u);
      if t.r >= 1 {
        MulMono(1, t.r, t.v);
      }
    }
  }

  lemma {:induction false} RunCount(x: int, p: int, n: nat)
    ensures Run(x, p, n).k <= n
  {
    if n > 0 {
      RunCount(x, p, n - 1);
    }
  }

  /** Dividing s by the 2^k that piled up gives the inverse. */
  lemma InverseFrom(x: int, s0: int, s: int, k: nat, p: int)
    requires p % 2 == 1 && Cong(x * s0, Pow(2, k), p) && Cong(Pow(2, k) * s, s0, p)
    ensures Cong(x * s, 1, p)
  {
    var q := Pow(2, k);
    CongRefl(x, p);
    CongMul(x, x, q * s, s0, p);
    CongTrans(x * (q * s), x * s0, q, p);
    Exchange(x, q, s);
    CancelPowTwo(x * s - 1, k, p);
  }

  lemma Exchange(x: int, q: int, s: int)
    ensures x * (q * s) - q == q * (x * s - 1)
  {
    assert x * (q * s) == q * (x * s);
  }
}
