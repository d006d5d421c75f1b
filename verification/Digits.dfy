/** Big-endian digit strings in an arbitrary base and the numbers they stand for. */
module Digits {
  import opened Arith

  /** The number written by the digits s, most significant digit first. */
  function Num(b: int, s: seq<int>): int {
    if s == [] then 0 else Num(b, s[..|s| - 1]) * b + s[|s| - 1]
  }

  ghost predicate Digital(b: int, s: seq<int>) {
    forall j :: 0 <= j < |s| ==> 0 <= s[j] < b
  }

  lemma NumSnoc(b: int, s: seq<int>, d: int)
    ensures Num(b, s + [d]) == Num(b, s) * b + d
  {
    assert (s + [d])[..|s|] == s;
  }

  lemma {:induction false} NumConcat(b: int, s: seq<int>, t: seq<int>)
    ensures Num(b, s + t) == Num(b, s) * Pow(b, |t|) + Num(b, t)
  {
    if t == [] {
      assert s + t == s;
    } else {
      var t', d := t[..|t| - 1], t[|t| - 1];
      NumConcat(b, s, t');
      assert s + t == (s + t') + [d];
      NumSnoc(b, s + t', d);
      Reassociate(Num(b, s), Pow(b, |t'|), b, Num(b, t'));
    }
  }

  lemma NumCons(b: int, d: int, rest: seq<int>)
    ensures Num(b, [d] + rest) == d * Pow(b, |rest|) + Num(b, rest)
  {
    NumConcat(b, [d], rest);
    NumSnoc(b, [], d);
    assert [] + [d] == [d];
  }

  lemma Reassociate(a: int, p: int, b: int, c: int)
    ensures (a * p + c) * b == a * (b * p) + c * b
  {
  }

  lemma {:induction false} NumBound(b: int, s: seq<int>)
    requires b > 0 && Digital(b, s)
    ensures 0 <= Num(b, s) < Pow(b, |s|)
  {
    if s != [] {
      var t := s[..|s| - 1];
      NumBound(b, t);
      DigitBelow(Num(b, t), Pow(b, |t|), b, s[|s| - 1]);
    }
  }

  lemma DigitBelow(n: int, p: int, b: int, d: int)
    requires 0 <= n < p && 0 <= d < b
    ensures 0 <= n * b + d < b * p
  {
    MulMono(n, p - 1, b);
    assert (p - 1) * b == b * p - b;
    MulMono(0, n, b);
  }

  /** Digit strings of the same length that stand for the same number are the same. */
  lemma {:induction false} NumUnique(b: int, s: seq<int>, t: seq<int>)
    requires b > 0 && Digital(b, s) && Digital(b, t) && |s| == |t| && Num(b, s) == Num(b, t)
    ensures s == t
  {
    if s != [] {
      var n := |s| - 1;
      DivModUnique(Num(b, s), b, Num(b, s[..n]), s[n]);
      DivModUnique(Num(b, t), b, Num(b, t[..n]), t[n]);
      NumUnique(b, s[..n], t[..n]);
      assert s == s[..n] + [s[n]] && t == t[..n] + [t[n]];
    }
  }

  function Zeros(n: nat): (s: seq<int>)
    ensures |s| == n && forall j :: 0 <= j < n ==> s[j] == 0
  {
    seq(n, _ => 0)
  }

  lemma {:induction false} NumZeros(b: int, n: nat)
    ensures Num(b, Zeros(n)) == 0
  {
    if n > 0 {
      NumZeros(b, n - 1);
      assert Zeros(n)[..n - 1] == Zeros(n - 1);
    }
  }

  lemma NumPad(b: int, n: nat, s: seq<int>)
    ensures Num(b, Zeros(n) + s) == Num(b, s)
  {
    NumConcat(b, Zeros(n), s);
    NumZeros(b, n);
  }

  lemma NumFour(b: int, s: seq<int>)
    requires |s| == 4
    ensures Num(b, s) == ((s[0] * b + s[1]) * b + s[2]) * b + s[3]
  {
    assert s == ((([] + [s[0]]) + [s[1]]) + [s[2]]) + [s[3]];
    NumSnoc(b, [], s[0]);
    NumSnoc(b, [] + [s[0]], s[1]);
    NumSnoc(b, ([] + [s[0]]) + [s[1]], s[2]);
    NumSnoc(b, (([] + [s[0]]) + [s[1]]) + [s[2]], s[3]);
  }

  /** The digits of n without leading zeros. */
  function Minimal(b: int, n: int): (s: seq<int>)
    requires b > 1
    ensures Num(b, s) == if n > 0 then n else 0
    decreases n
  {
    if n <= 0 then []
    else
      DivMod(n, b);
      Smaller(n, b);
      var t := Minimal(b, n / b);
      NumSnoc(b, t, n % b);
      t + [n % b]
  }

  lemma Smaller(n: int, b: int)
    requires n > 0 && b > 1
    ensures n / b < n
  {
    DivMod(n, b);
    MulMono(2, b, n / b);
  }

  lemma {:induction false} MinimalDigital(b: int, n: int)
    requires b > 1
    ensures Digital(b, Minimal(b, n))
    decreases n
  {
    if n > 0 {
      Smaller(n, b);
      DivMod(n, b);
      MinimalDigital(b, n / b);
    }
  }

  /** Minimal digits do not start with a zero. */
  lemma {:induction false} MinimalLead(b: int, n: int)
    requires b > 1
    ensures n > 0 ==> Minimal(b, n) != [] && Minimal(b, n)[0] > 0
    decreases n
  {
    if n > 0 {
      Smaller(n, b);
      DivMod(n, b);
      MinimalLead(b, n / b);
    }
  }

  /** Digits that do not start with a zero are the minimal digits of their number. */
  lemma {:induction false} MinimalUnique(b: int, s: seq<int>)
    requires b > 1 && Digital(b, s) && (s == [] || s[0] != 0)
    ensures Num(b, s) >= 0 && s == Minimal(b, Num(b, s))
    ensures s != [] ==> Num(b, s) > 0
  {
    if s != [] {
      var t, d := s[..|s| - 1], s[|s| - 1];
      MinimalUnique(b, t);
      MulMono(1, b, Num(b, t));
      DivModUnique(Num(b, s), b, Num(b, t), d);
      assert s == t + [d];
    }
  }

  /** k digits are enough exactly for the numbers below b^k. */
  lemma {:induction false} MinimalLength(b: int, n: int, k: nat)
    requires b > 1
    ensures |Minimal(b, n)| <= k <==> n < Pow(b, k)
    decreases n
  {
    PowPositive(b, k);
    if n > 0 {
      Smaller(n, b);
      DivMod(n, b);
      if k > 0 {
        MinimalLength(b, n / b, k - 1);
        DivBelow(n, b, Pow(b, k - 1));
      }
    }
  }

  lemma DivBelow(n: int, b: int, p: int)
    requires b > 0
    ensures n / b < p <==> n < b * p
  {
    DivMod(n, b);
    if n / b < p {
      MulMono(n / b + 1, p, b);
    } else {
      MulMono(p, n / b, b);
    }
  }
}
