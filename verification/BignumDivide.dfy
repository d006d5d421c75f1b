/** Short division of a bignum by a word. */
module BignumDivide {
  import opened Arith
  import opened Limbs
  import opened Words
  import opened Bignum

  /**
   * One limb of the division: neither the accumulator nor the quotient limb leaves its word.
   * This covers the documented bound on d, which is one more than the assert lets through.
   */
  lemma DivideLimb(r: nat, d: nat, x: nat)
    requires 1 <= d <= 61304 && r < d && x < BASE
    ensures 0x2000_0000 % d >= 0 && 0x2000_0000 / d >= 0
    ensures var acc := r * (0x2000_0000 % d) + x;
            && 0 <= acc < 0x1_0000_0000 && 0 <= acc / d && 0 <= acc % d < d
            && 0 <= r * (0x2000_0000 / d) + acc / d < BASE
            && r * 0x2000_0000 + x == (r * (0x2000_0000 / d) + acc / d) * d + acc % d
  {
    var b, m := 0x2000_0000 / d, 0x2000_0000 % d;
    DivMod(0x2000_0000, d);
    MulMono2(r, 61303, m, 61303);
    var acc := r * m + x;
    DivMod(acc, d);
    DivideSum(r, b, d, m, x, acc / d, acc % d);
    var q := r * b + acc / d;
    MulMono2(0, r, 0, b);
    if q >= 0x2000_0000 {
      MulMono(0x2000_0000, q, d);
    }
  }

  lemma DivideSum(r: int, b: int, d: int, m: int, x: int, t: int, u: int)
    requires 0x2000_0000 == b * d + m && r * m + x == t * d + u
    ensures r * 0x2000_0000 + x == (r * b + t) * d + u
  {
    Assoc(r, b, d);
    assert r * (b * d + m) == r * (b * d) + r * m;
  }

  // q = x / d and r = x % d; q and x may be the same array
  method LongDivision(x: array<u32>, d: u32, q: array<u32>) returns (r: u32)
    requires IsBignum(x) && q.Length == LIMBS && 1 <= d < 61304
    modifies q
    ensures IsBignum(q) && old(Value(x[..])) == Value(q[..]) * d + r && r < d
  {
    ghost var s: seq<int> := x[..];
    var i := LIMBS - 1;
    var top := x[i];
    DivMod(top, d);
    r := top % d;
    q[i] := top / d;
    while i > 0
      invariant 0 <= i < LIMBS && r < d
      invariant forall j :: 0 <= j < i ==> x[j] == s[j]
      invariant forall j :: i <= j < LIMBS ==> 0 <= q[j] < BASE
      invariant Suffix(s, i) == Suffix(q[..], i) * d + r
    {
      i := i - 1;
      ghost var above: seq<int> := q[..];
      DivideLimb(r, d, s[i]);
      var acc := W32(r as int * (BASE % d as int) + x[i]);
      q[i] := W32(r as int * (BASE / d as int) + acc / d);
      SuffixSame(above, q[..], i + 1);
      CarryDown(Suffix(s, i + 1), Suffix(above, i + 1), d, r, s[i], q[i], acc % d);
      r := acc % d;
    }
    ValueIsSuffix(s);
    ValueIsSuffix(q[..]);
  }

  lemma CarryDown(t: int, u: int, d: int, r: int, x: int, q: int, r': int)
    requires t == u * d + r && r * 0x2000_0000 + x == q * d + r'
    ensures x + 0x2000_0000 * t == (q + 0x2000_0000 * u) * d + r'
  {
    assert 0x2000_0000 * (u * d) == (0x2000_0000 * u) * d;
  }

  lemma {:induction false} SuffixSame(s: seq<int>, t: seq<int>, n: nat)
    requires n <= |s| == |t| && forall j :: n <= j < |s| ==> s[j] == t[j]
    ensures Suffix(s, n) == Suffix(t, n)
    decreases |s| - n
  {
    if n < |s| {
      SuffixSame(s, t, n + 1);
    }
  }
}
